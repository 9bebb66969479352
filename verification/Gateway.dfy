/** The client of perf/gateway/gateway.perf.ts. */
module Gateway {
  // Messages in frames of a 4-byte big-endian length and a payload, read back from a stream that
  // arrives in chunks.

  import opened Bytes
  import opened Numbers
  import opened Options

  /** Frame lengths are unsigned words of 32 bits. */
  const WORD := 0x1_0000_0000

  datatype Message = Message(id: string, op: string, body: bytes)

  /** MessagePack, of which only the inverse law is used. */
  datatype Codec = Codec(pack: Message -> bytes, unpack: bytes -> Message) {
    ghost predicate Inverse() {
      forall m :: unpack(pack(m)) == m
    }
  }

  // ---------------------------------------------------------------------------
  // Frames

  function Word(n: nat): bytes
    requires n < WORD
  {
    [(n / 256 / 256 / 256) as byte, (n / 256 / 256 % 256) as byte, (n / 256 % 256) as byte, (n % 256) as byte]
  }

  function WordOf(b: bytes): (n: nat)
    requires |b| >= 4
    ensures n < WORD
  {
    ((b[0] as int * 256 + b[1] as int) * 256 + b[2] as int) * 256 + b[3] as int
  }

  /** setUint32 keeps the length modulo 2^32. */
  function Frame(payload: bytes): bytes {
    Word(|payload| % WORD) + payload
  }

  /** The first frame of a stream, when it is complete, and what follows it. */
  function TakeFrame(b: bytes): Option<(bytes, bytes)> {
    if |b| >= 4 && |b| >= 4 + WordOf(b) then Some((b[4..4 + WordOf(b)], b[4 + WordOf(b)..])) else None
  }

  /** The payloads of the complete frames at the start of a stream. */
  function Payloads(b: bytes): seq<bytes>
    decreases |b|
  {
    var f := TakeFrame(b);
    if f.None? then [] else [f.value.0] + Payloads(f.value.1)
  }

  /** The stream after its first n frames. */
  function After(b: bytes, n: nat): bytes
    requires n <= |Payloads(b)|
    decreases n
  {
    if n == 0 then b else After(TakeFrame(b).value.1, n - 1)
  }

  lemma WordIsRead(n: nat)
    requires n < WORD
    ensures WordOf(Word(n)) == n
  {
  }

  lemma FrameHead(payload: bytes, rest: bytes)
    ensures |Frame(payload) + rest| >= 4 && WordOf(Frame(payload) + rest) == |payload| % WORD
  {
    WordIsRead(|payload| % WORD);
    assert (Frame(payload) + rest)[..4] == Word(|payload| % WORD);
  }

  /** A frame is read back, whatever follows it, exactly when its payload is shorter than
      2^32 bytes. */
  lemma FrameIff(payload: bytes, rest: bytes)
    ensures TakeFrame(Frame(payload) + rest) == Some((payload, rest)) <==> |payload| < WORD
  {
    var b := Frame(payload) + rest;
    FrameHead(payload, rest);
    if |payload| < WORD {
      assert b[4..4 + |payload|] == payload && b[4 + |payload|..] == rest;
    } else {
      assert |payload| % WORD < |payload|;
    }
  }

  lemma WordIsBigEndian(n: nat)
    requires n < WORD
    ensures var w := Word(n);
      |w| == 4 && w[0] as int * 16_777_216 + w[1] as int * 65_536 + w[2] as int * 256 + w[3] as int == n
  {
    WordIsRead(n);
  }

  /** A frame is the length of its payload, highest byte first, and the payload. */
  lemma FrameIsBigEndian(payload: bytes)
    requires |payload| < WORD
    ensures var f := Frame(payload);
      && |f| == 4 + |payload| && f[4..] == payload
      && f[0] as int * 16_777_216 + f[1] as int * 65_536 + f[2] as int * 256 + f[3] as int == |payload|
  {
    WordIsBigEndian(|payload|);
    assert Frame(payload) == Word(|payload|) + payload;
  }

  function Encoded(payloads: seq<bytes>): bytes {
    if payloads == [] then [] else Frame(payloads[0]) + Encoded(payloads[1..])
  }

  lemma FirstEncoded(payloads: seq<bytes>, rest: bytes)
    requires payloads != [] && |payloads[0]| < WORD
    ensures TakeFrame(Encoded(payloads) + rest) == Some((payloads[0], Encoded(payloads[1..]) + rest))
  {
    var first, tail := Frame(payloads[0]), Encoded(payloads[1..]);
    assert (first + tail) + rest == first + (tail + rest);
    FrameIff(payloads[0], tail + rest);
  }

  lemma HeadAndTail(payloads: seq<bytes>, more: seq<bytes>)
    requires payloads != []
    ensures [payloads[0]] + (payloads[1..] + more) == payloads + more
  {
  }

  /** A list of payloads, framed one after the other, is read back, and then what follows. */
  lemma {:induction false} EncodedIsRead(payloads: seq<bytes>, rest: bytes)
    requires forall k :: 0 <= k < |payloads| ==> |payloads[k]| < WORD
    ensures Payloads(Encoded(payloads) + rest) == payloads + Payloads(rest)
  {
    if payloads == [] {
      assert Encoded(payloads) + rest == rest;
      assert payloads + Payloads(rest) == Payloads(rest);
    } else {
      FirstEncoded(payloads, rest);
      EncodedIsRead(payloads[1..], rest);
      HeadAndTail(payloads, Payloads(rest));
    }
  }

  lemma {:induction false} AfterEncoded(payloads: seq<bytes>, rest: bytes)
    requires forall k :: 0 <= k < |payloads| ==> |payloads[k]| < WORD
    ensures |payloads| <= |Payloads(Encoded(payloads) + rest)|
    ensures After(Encoded(payloads) + rest, |payloads|) == rest
  {
    EncodedIsRead(payloads, rest);
    if payloads == [] {
      assert Encoded(payloads) + rest == rest;
    } else {
      FirstEncoded(payloads, rest);
      AfterEncoded(payloads[1..], rest);
    }
  }

  // ---------------------------------------------------------------------------
  // Reading from chunks

  function Flatten(chunks: seq<bytes>): bytes {
    if chunks == [] then [] else chunks[0] + Flatten(chunks[1..])
  }

  /** What readResponse finds: the response, the buffer, and the chunks not yet read.  After a
      frame with another id it reads on before it looks at the buffer again. */
  function Receive(c: Codec, id: string, buffer: bytes, chunks: seq<bytes>): (Option<Message>, bytes, seq<bytes>)
    decreases |chunks|
  {
    var f := TakeFrame(buffer);
    if f.Some? && c.unpack(f.value.0).id == id then (Some(c.unpack(f.value.0)), f.value.1, chunks)
    else
      var left := if f.Some? then f.value.1 else buffer;
      if chunks == [] then (None, left, [])
      else if chunks[0] == [] then (None, left, chunks[1..])
      else Receive(c, id, left + chunks[0], chunks[1..])
  }

  predicate Terminal(m: Message) {
    m.op == "ok" || m.op == "error" || m.op == "done" || m.op == "redirect"
  }

  lemma {:induction false} ReceiveConsumes(c: Codec, id: string, buffer: bytes, chunks: seq<bytes>)
    ensures var (m, left, more) := Receive(c, id, buffer, chunks);
      |left| + |Flatten(more)| + (if m.Some? then 4 else 0) <= |buffer| + |Flatten(chunks)|
    decreases |chunks|
  {
    var f := TakeFrame(buffer);
    if f.Some? && c.unpack(f.value.0).id == id {
    } else if chunks == [] || chunks[0] == [] {
    } else {
      ReceiveConsumes(c, id, (if f.Some? then f.value.1 else buffer) + chunks[0], chunks[1..]);
    }
  }

  /** What call collects: responses up to a terminal one. */
  function Collect(c: Codec, id: string, buffer: bytes, chunks: seq<bytes>): (seq<Message>, bytes, seq<bytes>)
    decreases |buffer| + |Flatten(chunks)|
  {
    var (m, left, more) := Receive(c, id, buffer, chunks);
    if m.None? then ([], left, more)
    else if Terminal(m.value) then ([m.value], left, more)
    else
      ReceiveConsumes(c, id, buffer, chunks);
      Onto([m.value], Collect(c, id, left, more))
  }

  function Onto(ms: seq<Message>, r: (seq<Message>, bytes, seq<bytes>)): (seq<Message>, bytes, seq<bytes>) {
    (ms + r.0, r.1, r.2)
  }

  function RequestId(n: nat): string {
    "req-" + Decimal(n)
  }

  /** Requests of one client carry different ids. */
  lemma RequestIdsDiffer(m: nat, n: nat)
    requires RequestId(m) == RequestId(n)
    ensures m == n
  {
    assert RequestId(m)[4..] == Decimal(m) && RequestId(n)[4..] == Decimal(n);
    DecimalInjective(m, n);
  }

  /** The other end: what it has sent, in the chunks it arrives in, and what it was sent. */
  class Socket {
    var incoming: seq<bytes>
    var sent: bytes

    /** The next chunk; an empty one at the end of the stream. */
    method Read() returns (chunk: bytes)
      modifies `incoming
      ensures old(incoming) == [] ==> chunk == [] && incoming == []
      ensures old(incoming) != [] ==> chunk == old(incoming)[0] && incoming == old(incoming)[1..]
    {
      if incoming == [] {
        return [];
      }
      chunk := incoming[0];
      incoming := incoming[1..];
    }

    method Write(b: bytes)
      modifies `sent
      ensures sent == old(sent) + b
    {
      sent := sent + b;
    }
  }

  class GatewayClient {
    var socket: Socket?
    var buffer: bytes
    var nextId: nat
    const codec: Codec

    constructor (codec: Codec)
      ensures socket == null && buffer == [] && nextId == 1 && this.codec == codec
    {
      socket, buffer, nextId := null, [], 1;
      this.codec := codec;
    }

    method Connect(s: Socket)
      modifies `socket
      ensures socket == s
    {
      socket := s;
    }

    method Close()
      modifies `socket
      ensures socket == null
    {
      socket := null;
    }

    method ReadResponse(id: string) returns (r: Option<Message>)
      requires socket != null
      modifies `buffer, socket`incoming
      ensures (r, buffer, socket.incoming) == Receive(codec, id, old(buffer), old(socket.incoming))
    {
      while true
        invariant Receive(codec, id, buffer, socket.incoming) == Receive(codec, id, old(buffer), old(socket.incoming))
        decreases |socket.incoming|
      {
        if |buffer| >= 4 {
          var length := WordOf(buffer);
          if |buffer| >= 4 + length {
            var payload := buffer[4..4 + length];
            ghost var before := buffer;
            buffer := buffer[4 + length..];
            var response := codec.unpack(payload);
            if response.id == id {
              return Some(response);
            }
          }
        }
        ghost var waiting := socket.incoming;
        var chunk := socket.Read();
        if |chunk| == 0 {
          return None;
        }
        buffer := buffer + chunk;
      }
    }

    /** None when there is no connection. */
    method Call(request: string -> bytes) returns (r: Option<seq<Message>>)
      modifies `buffer, `nextId, socket
      ensures r.None? <==> socket == null
      ensures r.None? ==> buffer == old(buffer) && nextId == old(nextId)
      ensures r.Some? ==> nextId == old(nextId) + 1
      ensures r.Some? ==> socket.sent == old(socket.sent) + Frame(request(RequestId(old(nextId))))
      ensures r.Some? ==>
        (r.value, buffer, socket.incoming) ==
          Collect(codec, RequestId(old(nextId)), old(buffer), old(socket.incoming))
    {
      if socket == null {
        return None;
      }
      var id := RequestId(nextId);
      nextId := nextId + 1;
      socket.Write(Frame(request(id)));
      var responses: seq<Message> := [];
      ghost var goal := Collect(codec, id, buffer, socket.incoming);
      assert [] + goal.0 == goal.0;
      while true
        invariant nextId == old(nextId) + 1 && socket.sent == old(socket.sent) + Frame(request(id))
        invariant goal == Onto(responses, Collect(codec, id, buffer, socket.incoming))
        decreases |buffer| + |Flatten(socket.incoming)|
      {
        ReceiveConsumes(codec, id, buffer, socket.incoming);
        ghost var rest := Collect(codec, id, buffer, socket.incoming).0;
        var response := ReadResponse(id);
        if response.None? {
          assert responses + rest == responses;
          break;
        }
        assert responses + rest == (responses + [response.value]) + rest[1..];
        responses := responses + [response.value];
        if Terminal(response.value) {
          assert responses + rest[1..] == responses;
          break;
        }
      }
      r := Some(responses);
    }
  }

  // ---------------------------------------------------------------------------
  // What is received does not depend on the chunks

  predicate Data(chunks: seq<bytes>) {
    forall k :: 0 <= k < |chunks| ==> chunks[k] != []
  }

  lemma TakeFrameStays(b: bytes, more: bytes)
    requires TakeFrame(b).Some?
    ensures TakeFrame(b + more) == Some((TakeFrame(b).value.0, TakeFrame(b).value.1 + more))
  {
    assert WordOf(b + more) == WordOf(b);
    var n := 4 + WordOf(b);
    assert (b + more)[4..n] == b[4..n] && (b + more)[n..] == b[n..] + more;
  }

  lemma FirstChunk(buffer: bytes, chunks: seq<bytes>)
    requires chunks != []
    ensures (buffer + chunks[0]) + Flatten(chunks[1..]) == buffer + Flatten(chunks)
  {
  }

  /** If the first frame of the stream has the right id it is received, and otherwise, when
      there is no complete frame at all, nothing is. */
  lemma {:induction false} ReceiveIsFirst(c: Codec, id: string, buffer: bytes, chunks: seq<bytes>)
    requires Data(chunks)
    requires var f := TakeFrame(buffer + Flatten(chunks)); f.Some? ==> c.unpack(f.value.0).id == id
    ensures var f := TakeFrame(buffer + Flatten(chunks)); var (m, left, more) := Receive(c, id, buffer, chunks);
      && Data(more)
      && (f.None? ==> m == None && left == buffer + Flatten(chunks) && more == [])
      && (f.Some? ==> m == Some(c.unpack(f.value.0)) && left + Flatten(more) == f.value.1)
    decreases |chunks|
  {
    if TakeFrame(buffer).Some? {
      TakeFrameStays(buffer, Flatten(chunks));
    } else if chunks == [] {
      assert buffer + Flatten(chunks) == buffer;
    } else {
      FirstChunk(buffer, chunks);
      ReceiveIsFirst(c, id, buffer + chunks[0], chunks[1..]);
    }
  }

  /** The messages of the frames up to and including the first terminal one. */
  function Replies(c: Codec, payloads: seq<bytes>): (r: seq<Message>)
    ensures |r| <= |payloads|
  {
    if payloads == [] then []
    else if Terminal(c.unpack(payloads[0])) then [c.unpack(payloads[0])]
    else [c.unpack(payloads[0])] + Replies(c, payloads[1..])
  }

  ghost predicate AllFor(ms: seq<Message>, id: string) {
    forall k :: 0 <= k < |ms| ==> ms[k].id == id
  }

  /** The replies of a stream that begins with a complete frame, and what is behind them. */
  lemma FirstReply(c: Codec, all: bytes)
    requires TakeFrame(all).Some?
    ensures var (payload, rest) := TakeFrame(all).value; var m := c.unpack(payload);
      var later := if Terminal(m) then [] else Replies(c, Payloads(rest));
      && Replies(c, Payloads(all)) == [m] + later
      && |later| <= |Payloads(rest)| && 1 + |later| <= |Payloads(all)|
      && After(all, 1 + |later|) == After(rest, |later|)
  {
    var (payload, rest) := TakeFrame(all).value;
    assert Payloads(all) == [payload] + Payloads(rest);
    assert Payloads(all)[1..] == Payloads(rest);
  }

  /** One turn of a call, on a stream whose first frame carries its id. */
  lemma CollectStep(c: Codec, id: string, buffer: bytes, chunks: seq<bytes>) returns (left: bytes, more: seq<bytes>)
    requires Data(chunks) && TakeFrame(buffer + Flatten(chunks)).Some?
    requires c.unpack(TakeFrame(buffer + Flatten(chunks)).value.0).id == id
    ensures var (payload, rest) := TakeFrame(buffer + Flatten(chunks)).value; var m := c.unpack(payload);
      && Data(more) && left + Flatten(more) == rest
      && |left| + |Flatten(more)| < |buffer| + |Flatten(chunks)|
      && Collect(c, id, buffer, chunks) ==
        if Terminal(m) then ([m], left, more) else Onto([m], Collect(c, id, left, more))
  {
    ReceiveIsFirst(c, id, buffer, chunks);
    ReceiveConsumes(c, id, buffer, chunks);
    var r := Receive(c, id, buffer, chunks);
    left, more := r.1, r.2;
  }

  lemma LaterForId(first: Message, later: seq<Message>, id: string)
    requires AllFor([first] + later, id)
    ensures first.id == id && AllFor(later, id)
  {
    assert ([first] + later)[0] == first;
    forall k | 0 <= k < |later| ensures later[k].id == id {
      assert ([first] + later)[k + 1] == later[k];
    }
  }

  /** The replies of the stream, and the bytes behind them. */
  predicate AreReplies(c: Codec, all: bytes, r: (seq<Message>, bytes, seq<bytes>)) {
    && r.0 == Replies(c, Payloads(all))
    && r.1 + Flatten(r.2) == After(all, |r.0|)
  }

  lemma OneReply(c: Codec, all: bytes, r: (seq<Message>, bytes, seq<bytes>))
    requires TakeFrame(all).Some?
    requires var (payload, rest) := TakeFrame(all).value; var m := c.unpack(payload);
      if Terminal(m) then r.0 == [m] && r.1 + Flatten(r.2) == rest
      else r.0 != [] && r.0[0] == m && AreReplies(c, rest, (r.0[1..], r.1, r.2))
    ensures AreReplies(c, all, r)
  {
    FirstReply(c, all);
    assert r.0 == [r.0[0]] + r.0[1..];
  }

  /** However the stream is cut into chunks, call returns its frames up to the first terminal
      one and leaves the bytes behind them, as long as those frames carry its id. */
  lemma {:induction false} CollectIsReplies(c: Codec, id: string, buffer: bytes, chunks: seq<bytes>)
    requires Data(chunks) && AllFor(Replies(c, Payloads(buffer + Flatten(chunks))), id)
    ensures AreReplies(c, buffer + Flatten(chunks), Collect(c, id, buffer, chunks))
    decreases |buffer| + |Flatten(chunks)|
  {
    var all := buffer + Flatten(chunks);
    if TakeFrame(all).None? {
      ReceiveIsFirst(c, id, buffer, chunks);
      assert all + Flatten([]) == all;
    } else {
      var (payload, rest) := TakeFrame(all).value;
      var m, later := c.unpack(payload), Replies(c, Payloads(rest));
      FirstReply(c, all);
      LaterForId(m, if Terminal(m) then [] else later, id);
      var left, more := CollectStep(c, id, buffer, chunks);
      if !Terminal(m) {
        CollectIsReplies(c, id, left, more);
      }
      OneReply(c, all, Collect(c, id, buffer, chunks));
    }
  }

  function Packed(c: Codec, ms: seq<Message>): (r: seq<bytes>)
    ensures |r| == |ms| && forall k :: 0 <= k < |ms| ==> r[k] == c.pack(ms[k])
  {
    seq(|ms|, k requires 0 <= k < |ms| => c.pack(ms[k]))
  }

  function UpToTerminal(ms: seq<Message>): (r: seq<Message>)
    ensures |r| <= |ms| && r == ms[..|r|]
  {
    if ms == [] then []
    else if Terminal(ms[0]) then [ms[0]]
    else [ms[0]] + UpToTerminal(ms[1..])
  }

  /** The messages up to the first that ends a call. */
  lemma {:induction false} CutAtItsEnd(ms: seq<Message>)
    ensures var got := UpToTerminal(ms);
      && (forall k :: 0 <= k < |got| - 1 ==> got[k].op !in {"ok", "error", "done", "redirect"})
      && (|got| < |ms| ==> got != [] && got[|got| - 1].op in {"ok", "error", "done", "redirect"})
  {
    if ms != [] && !Terminal(ms[0]) {
      CutAtItsEnd(ms[1..]);
    }
  }

  predicate HasTerminal(ms: seq<Message>) {
    exists k :: 0 <= k < |ms| && Terminal(ms[k])
  }

  lemma {:induction false} RepliesAreMessages(c: Codec, ms: seq<Message>, more: seq<bytes>)
    requires c.Inverse() && (HasTerminal(ms) || more == [])
    ensures Replies(c, Packed(c, ms) + more) == UpToTerminal(ms)
  {
    if ms == [] {
      assert Packed(c, ms) + more == [];
    } else {
      var payloads := Packed(c, ms) + more;
      assert c.unpack(c.pack(ms[0])) == ms[0];
      assert payloads[1..] == Packed(c, ms[1..]) + more;
      if !Terminal(ms[0]) {
        if k :| 0 <= k < |ms| && Terminal(ms[k]) {
          assert ms[1..][k - 1] == ms[k];
        }
        RepliesAreMessages(c, ms[1..], more);
      }
    }
  }

  lemma {:induction false} AfterSome(payloads: seq<bytes>, rest: bytes, n: nat)
    requires n <= |payloads| && forall k :: 0 <= k < |payloads| ==> |payloads[k]| < WORD
    ensures n <= |Payloads(Encoded(payloads) + rest)|
    ensures After(Encoded(payloads) + rest, n) == Encoded(payloads[n..]) + rest
  {
    EncodedIsRead(payloads, rest);
    if n == 0 {
      assert payloads[0..] == payloads;
    } else {
      FirstEncoded(payloads, rest);
      AfterSome(payloads[1..], rest, n - 1);
      assert payloads[1..][n - 1..] == payloads[n..];
    }
  }

  /** Messages sent with the id of a call come back from it, in order, up to and including the
      first terminal one, and the bytes of the others are still there. */
  lemma CallReturnsMessages(c: Codec, id: string, ms: seq<Message>, rest: bytes, buffer: bytes, chunks: seq<bytes>)
    requires c.Inverse() && Data(chunks) && AllFor(UpToTerminal(ms), id)
    requires forall k :: 0 <= k < |ms| ==> |c.pack(ms[k])| < WORD
    requires buffer + Flatten(chunks) == Encoded(Packed(c, ms)) + rest
    requires HasTerminal(ms) || TakeFrame(rest) == None
    ensures var (got, left, more) := Collect(c, id, buffer, chunks);
      && got == UpToTerminal(ms)
      && left + Flatten(more) == Encoded(Packed(c, ms[|got|..])) + rest
    ensures var got := Collect(c, id, buffer, chunks).0;
      && got <= ms
      && (forall k :: 0 <= k < |got| - 1 ==> got[k].op !in {"ok", "error", "done", "redirect"})
      && (|got| < |ms| ==> got != [] && got[|got| - 1].op in {"ok", "error", "done", "redirect"})
  {
    CutAtItsEnd(ms);
    var payloads := Packed(c, ms);
    EncodedIsRead(payloads, rest);
    RepliesAreMessages(c, ms, Payloads(rest));
    CollectIsReplies(c, id, buffer, chunks);
    var n := |UpToTerminal(ms)|;
    AfterSome(payloads, rest, n);
    assert payloads[n..] == Packed(c, ms[n..]);
  }

  // ---------------------------------------------------------------------------
  // Frames with another id

  predicate Carries(c: Codec, payload: bytes, id: string) {
    c.unpack(payload).id == id
  }

  /** Is there a frame with this id, but not at the front? */
  predicate Overtaken(c: Codec, payloads: seq<bytes>, id: string) {
    && payloads != [] && !Carries(c, payloads[0], id)
    && exists k :: 0 <= k < |payloads| && Carries(c, payloads[k], id)
  }

  /** Nothing is received when no frame carries the id. */
  lemma {:induction false} NothingToReceive(c: Codec, id: string, buffer: bytes, chunks: seq<bytes>)
    requires forall k :: 0 <= k < |Payloads(buffer + Flatten(chunks))| ==>
      !Carries(c, Payloads(buffer + Flatten(chunks))[k], id)
    ensures Receive(c, id, buffer, chunks).0 == None
    decreases |chunks|
  {
    var all, f := buffer + Flatten(chunks), TakeFrame(buffer);
    if f.Some? {
      TakeFrameStays(buffer, Flatten(chunks));
      assert Payloads(all) == [f.value.0] + Payloads(f.value.1 + Flatten(chunks));
      assert Payloads(all)[0] == f.value.0;
    }
    if chunks != [] && chunks[0] != [] {
      var left := if f.Some? then f.value.1 else buffer;
      FirstChunk(left, chunks);
      forall k | 0 <= k < |Payloads(left + Flatten(chunks))|
        ensures !Carries(c, Payloads(left + Flatten(chunks))[k], id)
      {
        assert f.Some? ==> Payloads(all)[k + 1] == Payloads(left + Flatten(chunks))[k];
      }
      NothingToReceive(c, id, left + chunks[0], chunks[1..]);
    }
  }

  /** A chunk for each frame, and one for what is left. */
  function FrameByFrame(b: bytes): (r: seq<bytes>)
    ensures Data(r) && Flatten(r) == b
    decreases |b|
  {
    var f := TakeFrame(b);
    if b == [] then []
    else if f.None? then [b]
    else
      var n := 4 + WordOf(b);
      assert b[..n] + f.value.1 == b;
      var later := FrameByFrame(f.value.1);
      assert ([b[..n]] + later)[1..] == later;
      [b[..n]] + later
  }

  lemma FrameOnItsOwn(b: bytes)
    requires TakeFrame(b).Some?
    ensures TakeFrame(b[..4 + WordOf(b)]) == Some((TakeFrame(b).value.0, []))
    ensures FrameByFrame(b) == [b[..4 + WordOf(b)]] + FrameByFrame(TakeFrame(b).value.1)
  {
    var n := 4 + WordOf(b);
    var one := b[..n];
    assert WordOf(one) == WordOf(b);
    assert one[4..n] == b[4..n] && one[n..] == [];
  }

  /** Frame by frame, a frame with the id is received wherever it is. */
  lemma {:induction false} FrameByFrameFinds(c: Codec, id: string, b: bytes, k: nat)
    requires k < |Payloads(b)| && Carries(c, Payloads(b)[k], id)
    ensures FrameByFrame(b) != []
    ensures var chunks := FrameByFrame(b); Receive(c, id, chunks[0], chunks[1..]).0.Some?
    decreases k
  {
    var f := TakeFrame(b);
    FrameOnItsOwn(b);
    var chunks := FrameByFrame(b);
    var later := FrameByFrame(f.value.1);
    assert chunks[1..] == later;
    if !Carries(c, f.value.0, id) {
      FrameByFrameFinds(c, id, f.value.1, k - 1);
      assert [] + later[0] == later[0];
    }
  }

  lemma ChunkOnItsOwn(c: Codec, id: string, chunks: seq<bytes>)
    requires Data(chunks) && chunks != []
    ensures Receive(c, id, [], chunks) == Receive(c, id, chunks[0], chunks[1..])
  {
    assert [] + chunks[0] == chunks[0];
  }

  ghost predicate SameReply(c: Codec, id: string, a: seq<bytes>, b: seq<bytes>) {
    Receive(c, id, [], a).0 == Receive(c, id, [], b).0
  }

  /** What a call receives first depends on how the stream is cut exactly when a frame with
      its id stands behind one with another: in one chunk it is then not received at all. */
  lemma ChunksMatterIff(c: Codec, id: string, all: bytes)
    ensures Overtaken(c, Payloads(all), id) <==>
            exists a, b :: Data(a) && Data(b) && Flatten(a) == Flatten(b) == all && !SameReply(c, id, a, b)
  {
    var payloads := Payloads(all);
    if Overtaken(c, payloads, id) {
      var k :| 0 <= k < |payloads| && Carries(c, payloads[k], id);
      var whole, parts := [all], FrameByFrame(all);
      FrameByFrameFinds(c, id, all, k);
      ChunkOnItsOwn(c, id, whole);
      ChunkOnItsOwn(c, id, parts);
      assert Flatten(whole) == all;
      assert Receive(c, id, all, []).0 == None;
      assert !SameReply(c, id, whole, parts);
    } else {
      forall a, b | Data(a) && Data(b) && Flatten(a) == Flatten(b) == all ensures SameReply(c, id, a, b) {
        ReplyIsKnown(c, id, all, a);
        ReplyIsKnown(c, id, all, b);
      }
    }
  }

  lemma ReplyIsKnown(c: Codec, id: string, all: bytes, chunks: seq<bytes>)
    requires !Overtaken(c, Payloads(all), id) && Data(chunks) && Flatten(chunks) == all
    ensures Receive(c, id, [], chunks).0 ==
      if Payloads(all) != [] && Carries(c, Payloads(all)[0], id) then Some(c.unpack(Payloads(all)[0])) else None
  {
    assert [] + Flatten(chunks) == all;
    if Payloads(all) != [] && Carries(c, Payloads(all)[0], id) {
      ReceiveIsFirst(c, id, [], chunks);
    } else {
      NothingToReceive(c, id, [], chunks);
    }
  }

  /** The messages at the front of the stream that carry the id, up to a terminal one. */
  function Answers(c: Codec, payloads: seq<bytes>, id: string): seq<Message> {
    if payloads == [] || !Carries(c, payloads[0], id) then []
    else
      var m := c.unpack(payloads[0]);
      [m] + if Terminal(m) then [] else Answers(c, payloads[1..], id)
  }

  /** Before any terminal message of the call, is there a frame with another id, and behind it
      one with this id? */
  predicate CallOvertaken(c: Codec, payloads: seq<bytes>, id: string) {
    payloads != [] &&
    if Carries(c, payloads[0], id)
    then !Terminal(c.unpack(payloads[0])) && CallOvertaken(c, payloads[1..], id)
    else Overtaken(c, payloads, id)
  }

  lemma FirstAnswer(c: Codec, all: bytes, id: string)
    requires TakeFrame(all).Some?
    ensures var (payload, rest) := TakeFrame(all).value; var m := c.unpack(payload);
      && Payloads(all) != [] && Payloads(all)[0] == payload && Payloads(all)[1..] == Payloads(rest)
      && (m.id == id ==>
          Answers(c, Payloads(all), id) == [m] + if Terminal(m) then [] else Answers(c, Payloads(rest), id))
  {
    var (payload, rest) := TakeFrame(all).value;
    assert Payloads(all) == [payload] + Payloads(rest);
  }

  /** With no such frame, a call returns the answers, however the stream is cut. */
  lemma {:induction false} CollectIsAnswers(c: Codec, id: string, buffer: bytes, chunks: seq<bytes>)
    requires Data(chunks) && !CallOvertaken(c, Payloads(buffer + Flatten(chunks)), id)
    ensures Collect(c, id, buffer, chunks).0 == Answers(c, Payloads(buffer + Flatten(chunks)), id)
    decreases |buffer| + |Flatten(chunks)|
  {
    var all := buffer + Flatten(chunks);
    if TakeFrame(all).None? || c.unpack(TakeFrame(all).value.0).id != id {
      if TakeFrame(all).Some? {
        FirstAnswer(c, all, id);
      }
      NothingToReceive(c, id, buffer, chunks);
    } else {
      FirstAnswer(c, all, id);
      var left, more := CollectStep(c, id, buffer, chunks);
      if !Terminal(c.unpack(TakeFrame(all).value.0)) {
        CollectIsAnswers(c, id, left, more);
      }
    }
  }

  /** With everything in the buffer, a call returns the answers in any case. */
  lemma {:induction false} BufferedIsAnswers(c: Codec, id: string, buffer: bytes)
    ensures Collect(c, id, buffer, []).0 == Answers(c, Payloads(buffer), id)
    decreases |buffer|
  {
    var f := TakeFrame(buffer);
    if f.Some? {
      FirstAnswer(c, buffer, id);
      if c.unpack(f.value.0).id == id {
        assert Receive(c, id, buffer, []) == (Some(c.unpack(f.value.0)), f.value.1, []);
        BufferedIsAnswers(c, id, f.value.1);
      }
    }
  }

  /** Frame by frame, a call also returns what stands behind a frame with another id. */
  lemma {:induction false} FrameByFrameGivesMore(c: Codec, id: string, all: bytes)
    requires CallOvertaken(c, Payloads(all), id)
    ensures |Collect(c, id, [], FrameByFrame(all)).0| > |Answers(c, Payloads(all), id)|
    decreases |all|
  {
    var (payload, rest) := TakeFrame(all).value;
    var chunks := FrameByFrame(all);
    FirstAnswer(c, all, id);
    FrameOnItsOwn(all);
    ChunkOnItsOwn(c, id, chunks);
    assert chunks[1..] == FrameByFrame(rest);
    if Carries(c, payload, id) {
      assert Receive(c, id, [], chunks) == (Some(c.unpack(payload)), [], FrameByFrame(rest));
      FrameByFrameGivesMore(c, id, rest);
    } else {
      var k :| 0 <= k < |Payloads(all)| && Carries(c, Payloads(all)[k], id);
      FrameByFrameFinds(c, id, all, k);
    }
  }

  ghost predicate SameReplies(c: Codec, id: string, a: seq<bytes>, b: seq<bytes>) {
    Collect(c, id, [], a).0 == Collect(c, id, [], b).0
  }

  /** What a whole call returns, from an empty buffer, depends on how the stream is cut exactly
      when a frame with its id stands behind one with another, and no terminal message of the
      call comes before that one. */
  lemma CallChunksMatterIff(c: Codec, id: string, all: bytes)
    ensures CallOvertaken(c, Payloads(all), id) <==>
            exists a, b :: Data(a) && Data(b) && Flatten(a) == Flatten(b) == all && !SameReplies(c, id, a, b)
  {
    if CallOvertaken(c, Payloads(all), id) {
      var whole, parts := [all], FrameByFrame(all);
      FrameByFrameGivesMore(c, id, all);
      BufferedIsAnswers(c, id, all);
      ChunkOnItsOwn(c, id, whole);
      assert Flatten(whole) == all;
      assert !SameReplies(c, id, whole, parts);
    } else {
      forall a, b | Data(a) && Data(b) && Flatten(a) == Flatten(b) == all ensures SameReplies(c, id, a, b) {
        assert [] + Flatten(a) == all && [] + Flatten(b) == all;
        CollectIsAnswers(c, id, [], a);
        CollectIsAnswers(c, id, [], b);
      }
    }
  }
}
