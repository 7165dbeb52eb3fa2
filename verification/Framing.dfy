/** Reading framed messages from a client: ReadNBytes, the reused buffer, and the accept loop's parser. */
module Framing {
  import opened Basics

  // ---- Headers and frames ------------------------------------------------------------------------

  const HEADER: nat := 12
  const U32: nat := 0x1_0000_0000
  const DEBUG_MESSAGE: nat := 4
  const HELLO: nat := 6
  const HELLO_SIZE: nat := 800     // sizeof(Hello)
  const INITIAL_BUFFER: nat := 1024

  function EncodeU32(n: nat): (r: seq<Byte>)
    requires n < U32
    ensures |r| == 4
  {
    var a := n / 0x100;
    var b := a / 0x100;
    [n % 0x100, a % 0x100, b % 0x100, b / 0x100]
  }

  function DecodeU32(b: seq<Byte>): (n: nat)
    requires |b| == 4
    ensures n < U32
  {
    var b0: int, b1: int, b2: int, b3: int := b[0], b[1], b[2], b[3];
    b0 + 0x100 * b1 + 0x1_0000 * b2 + 0x100_0000 * b3
  }

  lemma U32RoundTrip(n: nat)
    requires n < U32
    ensures DecodeU32(EncodeU32(n)) == n
  {
  }

  datatype Frame = Frame(messageType: nat, id: nat, payload: seq<Byte>)

  /** The payload length must fit the `int` that recv takes. */
  const MAX_RECV: nat := 0x7FFF_FFFF

  predicate ValidFrame(f: Frame) {
    f.messageType < U32 && f.id < U32 && |f.payload| <= MAX_RECV
  }

  function Encode(f: Frame): (r: seq<Byte>)
    requires ValidFrame(f)
    ensures |r| == HEADER + |f.payload|
  {
    EncodeU32(f.messageType) + EncodeU32(HEADER + |f.payload|) + EncodeU32(f.id) + f.payload
  }

  function EncodeAll(fs: seq<Frame>): (r: seq<Byte>)
    requires forall i :: 0 <= i < |fs| ==> ValidFrame(fs[i])
  {
    if |fs| == 0 then [] else Encode(fs[0]) + EncodeAll(fs[1..])
  }

  lemma LittleEndian(n: nat)
    requires n < U32
    ensures var b := EncodeU32(n);
      b[0] == n % 0x100 && b[1] == (n / 0x100) % 0x100 && b[2] == (n / 0x1_0000) % 0x100 && b[3] == n / 0x100_0000
  {
  }

  /** The wire format byte by byte: type, total size and tablet ID, little-endian, then the payload. */
  lemma WireLayout(f: Frame)
    requires ValidFrame(f)
    ensures var e, size := Encode(f), 12 + |f.payload|;
      && |e| == size && e[12..] == f.payload
      && e[0] == f.messageType % 0x100 && e[1] == (f.messageType / 0x100) % 0x100
      && e[2] == (f.messageType / 0x1_0000) % 0x100 && e[3] == f.messageType / 0x100_0000
      && e[4] == size % 0x100 && e[5] == (size / 0x100) % 0x100 && e[6] == (size / 0x1_0000) % 0x100 && e[7] == size / 0x100_0000
      && e[8] == f.id % 0x100 && e[9] == (f.id / 0x100) % 0x100 && e[10] == (f.id / 0x1_0000) % 0x100 && e[11] == f.id / 0x100_0000
  {
    LittleEndian(f.messageType);
    LittleEndian(12 + |f.payload|);
    LittleEndian(f.id);
  }

  // ---- recv ----------------------------------------------------------------------------------------

  /** How the operating system will answer one recv: some of what is there, or an error. */
  datatype Reply = Deliver(most: nat) | Fail(code: int)

  datatype ReadEnd = Done | SocketClosed | WsaError(code: int)

  const WSAECONNRESET: int := 10054

  /** How a read ends when recv reports an error. */
  function FailedWith(code: int): ReadEnd {
    if code == WSAECONNRESET then SocketClosed else WsaError(code)
  }

  /** What one ReadNBytes call sees: the chunks in order, how it ended, and what is left. */
  datatype Trace = Trace(chunks: seq<seq<Byte>>, end: ReadEnd, stream: seq<Byte>, plan: seq<Reply>)

  /** Bytes one recv returns; with the plan used up it returns all it was asked for, if there. */
  function ChunkSize(stream: seq<Byte>, plan: seq<Reply>, want: nat): (n: nat)
    requires want > 0 && |stream| > 0 && (|plan| > 0 ==> plan[0].Deliver?)
    ensures 1 <= n <= want && n <= |stream|
  {
    Min(Min(want, |stream|), if |plan| == 0 then want else plan[0].most + 1)
  }

  /** recv may return any positive number of the bytes that are there and asked for. */
  lemma AnyChunk(stream: seq<Byte>, want: nat, n: nat)
    requires 1 <= n <= want && n <= |stream|
    ensures ChunkSize(stream, [Deliver(n - 1)], want) == n
  {
  }

  function Tail(plan: seq<Reply>): seq<Reply> {
    if |plan| == 0 then plan else plan[1..]
  }

  function Receive(stream: seq<Byte>, plan: seq<Reply>, want: nat): (t: Trace)
    decreases want
  {
    if want == 0 then Trace([], Done, stream, plan)
    else if |plan| > 0 && plan[0].Fail? then
      Trace([], FailedWith(plan[0].code), stream, Tail(plan))
    else if |stream| == 0 then Trace([], SocketClosed, stream, Tail(plan))
    else
      var n := ChunkSize(stream, plan, want);
      var t := Receive(stream[n..], Tail(plan), want - n);
      t.(chunks := [stream[..n]] + t.chunks)
  }

  /** An error ends the read at once: 10054, a reset, as a closed socket, and any other error as itself. */
  lemma ErrorEndsRead(stream: seq<Byte>, code: int, plan: seq<Reply>, want: nat)
    requires want > 0
    ensures Receive(stream, [Fail(code)] + plan, want)
         == Trace([], if code == 10054 then SocketClosed else WsaError(code), stream, plan)
  {
    assert ([Fail(code)] + plan)[1..] == plan;
  }

  function Concat(chunks: seq<seq<Byte>>): seq<Byte> {
    if |chunks| == 0 then [] else chunks[0] + Concat(chunks[1..])
  }

  predicate Answers(stream: seq<Byte>, plan: seq<Reply>, want: nat) {
    want > 0 && !(|plan| > 0 && plan[0].Fail?) && |stream| > 0
  }

  lemma ConcatCons(c: seq<Byte>, chunks: seq<seq<Byte>>)
    ensures Concat([c] + chunks) == c + Concat(chunks)
  {
  }

  lemma {:induction false} ReadPartitions(stream: seq<Byte>, plan: seq<Reply>, want: nat)
    ensures var t := Receive(stream, plan, want); Concat(t.chunks) + t.stream == stream
    decreases want
  {
    if Answers(stream, plan, want) {
      var n := ChunkSize(stream, plan, want);
      var t := Receive(stream[n..], Tail(plan), want - n);
      ReadPartitions(stream[n..], Tail(plan), want - n);
      ConcatCons(stream[..n], t.chunks);
      Reassemble(stream, n, Concat(t.chunks), t.stream);
    }
  }

  lemma {:induction false} ReadCounts(stream: seq<Byte>, plan: seq<Reply>, want: nat)
    ensures var t := Receive(stream, plan, want);
      if t.end.Done? then |Concat(t.chunks)| == want else |Concat(t.chunks)| < want
    decreases want
  {
    if Answers(stream, plan, want) {
      var n := ChunkSize(stream, plan, want);
      ReadCounts(stream[n..], Tail(plan), want - n);
      ConcatCons(stream[..n], Receive(stream[n..], Tail(plan), want - n).chunks);
    }
  }

  /** The read loop terminates; success consumes exactly `want` bytes of the stream, failure fewer. */
  lemma {:induction false} ReadConsumes(stream: seq<Byte>, plan: seq<Reply>, want: nat)
    ensures var t := Receive(stream, plan, want);
      && Concat(t.chunks) + t.stream == stream
      && (if t.end.Done? then |Concat(t.chunks)| == want else |Concat(t.chunks)| < want)
  {
    ReadPartitions(stream, plan, want);
    ReadCounts(stream, plan, want);
  }

  lemma Reassemble(stream: seq<Byte>, n: nat, middle: seq<Byte>, rest: seq<Byte>)
    requires n <= |stream| && middle + rest == stream[n..]
    ensures (stream[..n] + middle) + rest == stream
  {
  }

  ghost predicate Fit(chunks: seq<seq<Byte>>, want: nat) {
    forall i :: 0 <= i < |chunks| ==> 0 < |chunks[i]| <= want
  }

  lemma {:induction false} ChunksFit(stream: seq<Byte>, plan: seq<Reply>, want: nat)
    ensures Fit(Receive(stream, plan, want).chunks, want)
    decreases want
  {
    if Answers(stream, plan, want) {
      var n := ChunkSize(stream, plan, want);
      var rest := Receive(stream[n..], Tail(plan), want - n);
      ChunksFit(stream[n..], Tail(plan), want - n);
    }
  }

  // ---- The buffer after a read -----------------------------------------------------------------------

  /** `p` is never advanced, so each chunk lands at the start of the buffer. */
  function Overlay(base: seq<Byte>, chunks: seq<seq<Byte>>): (r: seq<Byte>)
    ensures |r| == |base|
    decreases |chunks|
  {
    if |chunks| == 0 then base
    else
      var r := Overlay(base, chunks[..|chunks| - 1]);
      var c := chunks[|chunks| - 1];
      if |c| <= |r| then c + r[|c|..] else r
  }

  ghost predicate LastLonger(chunks: seq<seq<Byte>>, i: nat, j: int) {
    0 <= j < |chunks| && |chunks[j]| > i && forall k :: j < k < |chunks| ==> |chunks[k]| <= i
  }

  lemma OverlayLast(base: seq<Byte>, chunks: seq<seq<Byte>>, i: nat)
    requires i < |base| && |chunks| > 0 && |chunks[|chunks| - 1]| <= |base|
    ensures var c := chunks[|chunks| - 1];
      Overlay(base, chunks)[i] == if i < |c| then c[i] else Overlay(base, chunks[..|chunks| - 1])[i]
  {
  }

  /** Byte i ends as byte i of the last chunk longer than i, or untouched when there is none. */
  lemma {:induction false} OverlayByte(base: seq<Byte>, chunks: seq<seq<Byte>>, i: nat)
    requires i < |base| && forall k :: 0 <= k < |chunks| ==> |chunks[k]| <= |base|
    ensures forall j :: LastLonger(chunks, i, j) ==> Overlay(base, chunks)[i] == chunks[j][i]
    ensures (forall k :: 0 <= k < |chunks| ==> |chunks[k]| <= i) ==> Overlay(base, chunks)[i] == base[i]
    decreases |chunks|
  {
    if |chunks| > 0 {
      var n := |chunks| - 1;
      OverlayByte(base, chunks[..n], i);
      OverlayLast(base, chunks, i);
      forall j | LastLonger(chunks, i, j) ensures Overlay(base, chunks)[i] == chunks[j][i] {
        if j < n {
          assert |chunks[n]| <= i;
          assert LastLonger(chunks[..n], i, j);
        }
      }
    }
  }

  lemma {:induction false} ConcatTwo(chunks: seq<seq<Byte>>, k: nat)
    requires |chunks| >= 2 && k < |chunks| && forall i :: 0 <= i < |chunks| ==> |chunks[i]| > 0
    ensures |chunks[k]| < |Concat(chunks)|
    decreases |chunks|
  {
    if k > 0 {
      if |chunks| > 2 {
        ConcatTwo(chunks[1..], k - 1);
      }
    }
  }

  /** After any read, complete or not, byte i of the destination is as OverlayByte says. */
  lemma ReadByte(base: seq<Byte>, stream: seq<Byte>, plan: seq<Reply>, i: nat)
    requires i < |base|
    ensures var chunks := Receive(stream, plan, |base|).chunks;
      && (forall j :: LastLonger(chunks, i, j) ==> Overlay(base, chunks)[i] == chunks[j][i])
      && ((forall k :: 0 <= k < |chunks| ==> |chunks[k]| <= i) ==> Overlay(base, chunks)[i] == base[i])
  {
    ChunksFit(stream, plan, |base|);
    OverlayByte(base, Receive(stream, plan, |base|).chunks, i);
  }

  lemma SplitMissesLast(base: seq<Byte>, chunks: seq<seq<Byte>>)
    requires |chunks| >= 2 && |Concat(chunks)| == |base| && forall i :: 0 <= i < |chunks| ==> |chunks[i]| > 0
    ensures |base| > 0 && Overlay(base, chunks)[|base| - 1] == base[|base| - 1]
  {
    forall k | 0 <= k < |chunks| ensures |chunks[k]| <= |base| - 1 {
      ConcatTwo(chunks, k);
    }
    OverlayByte(base, chunks, |base| - 1);
  }

  /** A complete read that came in two or more chunks never writes the last byte. */
  lemma SplitReadMissesLast(base: seq<Byte>, stream: seq<Byte>, plan: seq<Reply>)
    requires var t := Receive(stream, plan, |base|); t.end.Done? && |t.chunks| >= 2
    ensures |base| > 0 && Overlay(base, Receive(stream, plan, |base|).chunks)[|base| - 1] == base[|base| - 1]
  {
    ChunksFit(stream, plan, |base|);
    ReadCounts(stream, plan, |base|);
    SplitMissesLast(base, Receive(stream, plan, |base|).chunks);
  }

  /** Reading into `base` leaves exactly the bytes that were taken from the stream. */
  ghost predicate ReadExact(base: seq<Byte>, stream: seq<Byte>, plan: seq<Reply>) {
    |base| <= |stream| && Overlay(base, Receive(stream, plan, |base|).chunks) == stream[..|base|]
  }

  lemma OneChunkExact(base: seq<Byte>, stream: seq<Byte>, plan: seq<Reply>)
    requires var t := Receive(stream, plan, |base|); t.end.Done? && |t.chunks| <= 1
    ensures ReadExact(base, stream, plan)
  {
    ReadConsumes(stream, plan, |base|);
    var chunks := Receive(stream, plan, |base|).chunks;
    assert |chunks| == 1 ==> Concat(chunks) == chunks[0];
  }

  lemma SplitReadBroken(stream: seq<Byte>, plan: seq<Reply>, want: nat) returns (base: seq<Byte>)
    requires var t := Receive(stream, plan, want); t.end.Done? && |t.chunks| >= 2
    ensures |base| == want && !ReadExact(base, stream, plan)
  {
    ReadConsumes(stream, plan, want);
    base := seq(want, i requires 0 <= i < want && want <= |stream| => if stream[i] == 0 then 1 else 0);
    SplitReadMissesLast(base, stream, plan);
  }

  /** A complete read is exact whatever the destination held before exactly when it came in at most one chunk. */
  lemma ReadExactIff(stream: seq<Byte>, plan: seq<Reply>, want: nat)
    requires Receive(stream, plan, want).end.Done?
    ensures (forall base: seq<Byte> :: |base| == want ==> ReadExact(base, stream, plan))
       <==> |Receive(stream, plan, want).chunks| <= 1
  {
    if |Receive(stream, plan, want).chunks| <= 1 {
      forall base: seq<Byte> | |base| == want ensures ReadExact(base, stream, plan) {
        OneChunkExact(base, stream, plan);
      }
    } else {
      var base := SplitReadBroken(stream, plan, want);
    }
  }

  // ---- The socket and the read loop --------------------------------------------------------------------

  datatype RecvResult = Bytes(data: seq<Byte>) | Closed | Error(code: int)

  /** `refusal` is the error that recv reports when the length it is given is negative. */
  class Socket {
    const refusal: int
    var stream: seq<Byte>
    var plan: seq<Reply>

    method Recv(want: nat) returns (r: RecvResult)
      requires want > 0
      modifies this
      ensures plan == Tail(old(plan))
      ensures if |old(plan)| > 0 && old(plan)[0].Fail? then r == Error(old(plan)[0].code) && stream == old(stream)
              else if |old(stream)| == 0 then r == Closed && stream == old(stream)
              else r.Bytes? && var n := ChunkSize(old(stream), old(plan), want);
                   r.data == old(stream)[..n] && stream == old(stream)[n..]
    {
      if |plan| > 0 && plan[0].Fail? {
        r := Error(plan[0].code);
      } else if |stream| == 0 {
        r := Closed;
      } else {
        var n := ChunkSize(stream, plan, want);
        r := Bytes(stream[..n]);
        stream := stream[n..];
      }
      plan := Tail(plan);
    }
  }

  /** Writes `data` into the buffer from `at`, as recv does. */
  method Store(buffer: array<Byte>, at: nat, data: seq<Byte>)
    requires at + |data| <= buffer.Length
    modifies buffer
    ensures buffer[..] == old(buffer[..at]) + data + old(buffer[at + |data|..])
  {
    for i := 0 to |data|
      invariant forall j :: 0 <= j < buffer.Length ==>
        buffer[j] == if at <= j < at + i then data[j - at] else old(buffer[j])
    {
      buffer[at + i] := data[i];
    }
  }

  /** The buffer with its `count` bytes at `at` replaced by the overlay of the chunks. */
  ghost function Filled(before: seq<Byte>, at: nat, count: nat, chunks: seq<seq<Byte>>): (r: seq<Byte>)
    requires at + count <= |before|
    ensures |r| == |before|
  {
    before[..at] + Overlay(before[at..at + count], chunks) + before[at + count..]
  }

  lemma FilledThen(before: seq<Byte>, at: nat, count: nat, chunks: seq<seq<Byte>>, c: seq<Byte>)
    requires at + count <= |before| && |c| <= count
    ensures var r := Filled(before, at, count, chunks);
      r[..at] + c + r[at + |c|..] == Filled(before, at, count, chunks + [c])
  {
  }

  /** What is left of a read after `chunks`: the remaining trace is that of the socket as it stands. */
  ghost predicate Remaining(whole: Trace, chunks: seq<seq<Byte>>, stream: seq<Byte>, plan: seq<Reply>, toRead: nat) {
    Receive(stream, plan, toRead) == whole.(chunks := Receive(stream, plan, toRead).chunks)
    && whole.chunks == chunks + Receive(stream, plan, toRead).chunks
  }

  lemma RemainingStep(whole: Trace, chunks: seq<seq<Byte>>, stream: seq<Byte>, plan: seq<Reply>, toRead: nat)
    requires toRead > 0 && |stream| > 0 && (|plan| > 0 ==> plan[0].Deliver?)
    requires Remaining(whole, chunks, stream, plan, toRead)
    ensures var n := ChunkSize(stream, plan, toRead);
      Remaining(whole, chunks + [stream[..n]], stream[n..], Tail(plan), toRead - n)
  {
  }

  /**
    ReadNBytes as written: the destination pointer is not advanced.  The call follows `Receive`
    step by step, and the `count` bytes at `at` end as the overlay of the chunks.
   */
  method ReadNBytes(socket: Socket, buffer: array<Byte>, at: nat, count: nat) returns (end: ReadEnd)
    requires at + count <= buffer.Length
    modifies socket, buffer
    ensures var t := Receive(old(socket.stream), old(socket.plan), count);
      && end == t.end && socket.stream == t.stream && socket.plan == t.plan
      && buffer[..] == Filled(old(buffer[..]), at, count, t.chunks)
  {
    var toRead := count;
    ghost var before := buffer[..];
    ghost var whole := Receive(socket.stream, socket.plan, count);
    ghost var chunks: seq<seq<Byte>> := [];
    assert chunks + whole.chunks == whole.chunks;
    assert before == Filled(before, at, count, []);
    while toRead > 0
      invariant 0 <= toRead <= count
      invariant Remaining(whole, chunks, socket.stream, socket.plan, toRead)
      invariant buffer[..] == Filled(before, at, count, chunks)
    {
      ghost var stream, plan := socket.stream, socket.plan;
      var result := socket.Recv(toRead);
      match result
      case Closed =>
        assert chunks + [] == chunks;
        return SocketClosed;
      case Error(code) =>
        assert chunks + [] == chunks;
        return FailedWith(code);
      case Bytes(data) =>
        RemainingStep(whole, chunks, stream, plan, toRead);
        FilledThen(before, at, count, chunks, data);
        Store(buffer, at, data);
        chunks := chunks + [data];
        toRead := toRead - |data|;
    }
    assert chunks + [] == chunks;
    end := Done;
  }
}
