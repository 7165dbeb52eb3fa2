/** The operational phase of AcceptOnce: client frames read into one reused, growing buffer. */
module FrameParser {
  import opened Basics
  import opened Framing

  /** `static_cast<int>(size - sizeof(Header))`, where the subtraction wraps, is not negative. */
  predicate Readable(size: nat) {
    HEADER <= size <= HEADER + MAX_RECV
  }

  /** `static_cast<int>` of a size_t. */
  function AsInt32(n: int): int {
    (n + 0x8000_0000) % 0x1_0000_0000 - 0x8000_0000
  }

  /** Readable sizes are those for which recv gets a length that is not negative. */
  lemma ReadableIff(size: nat)
    requires size < 0x1_0000_0000
    ensures Readable(size) <==> AsInt32((size - 12) % 0x1_0000_0000_0000_0000) >= 0
  {
  }

  /** What the loop acts on: the frame, and the bytes it looks at as a Hello. */
  datatype Visit = Visit(frame: Frame, helloView: seq<Byte>)

  datatype One = Got(visit: Visit) | Stop(end: ReadEnd)

  function SizeIn(bytes: seq<Byte>): (n: nat)
    requires |bytes| >= HEADER
  {
    DecodeU32(bytes[4..8])
  }

  function FrameIn(bytes: seq<Byte>): (f: Frame)
    requires |bytes| >= HEADER && HEADER <= SizeIn(bytes) <= |bytes|
  {
    Frame(DecodeU32(bytes[0..4]), DecodeU32(bytes[8..12]), bytes[HEADER..SizeIn(bytes)])
  }

  /** The reference parser, on the stream itself: no buffer, no chunks. */
  datatype Parsed = Parsed(frames: seq<Frame>, end: ReadEnd)

  function Parse(stream: seq<Byte>, refusal: int): (p: Parsed)
    decreases |stream|
  {
    if |stream| < HEADER then Parsed([], SocketClosed)
    else if !Readable(SizeIn(stream)) then Parsed([], FailedWith(refusal))
    else if |stream| < SizeIn(stream) then Parsed([], SocketClosed)
    else
      var rest := Parse(stream[SizeIn(stream)..], refusal);
      rest.(frames := [FrameIn(stream)] + rest.frames)
  }

  // ---- Framing round trip --------------------------------------------------------------------------

  lemma FrameRoundTrip(f: Frame, rest: seq<Byte>)
    requires ValidFrame(f)
    ensures var s := Encode(f) + rest;
      SizeIn(s) == HEADER + |f.payload| && FrameIn(s) == f && s[SizeIn(s)..] == rest
  {
  }

  /** Parsing the encoding of any sequence of frames gives back exactly those frames, in order. */
  lemma {:induction false} ParseRoundTrip(fs: seq<Frame>, refusal: int)
    requires forall i :: 0 <= i < |fs| ==> ValidFrame(fs[i])
    ensures Parse(EncodeAll(fs), refusal) == Parsed(fs, SocketClosed)
  {
    if |fs| > 0 {
      FrameRoundTrip(fs[0], EncodeAll(fs[1..]));
      ParseRoundTrip(fs[1..], refusal);
    }
  }

  lemma U32Inverse(b: seq<Byte>)
    requires |b| == 4
    ensures EncodeU32(DecodeU32(b)) == b
  {
    var b0: int, b1: int, b2: int, b3: int := b[0], b[1], b[2], b[3];
    var n := DecodeU32(b);
    assert n / 0x100 / 0x100 == b2 + 0x100 * b3;
  }

  /** The other direction: a frame that was read encodes to the bytes it was read from. */
  lemma ReencodedFrame(bytes: seq<Byte>)
    requires |bytes| >= HEADER && Readable(SizeIn(bytes)) && SizeIn(bytes) <= |bytes|
    ensures ValidFrame(FrameIn(bytes)) && Encode(FrameIn(bytes)) == bytes[..SizeIn(bytes)]
  {
    U32Inverse(bytes[0..4]);
    U32Inverse(bytes[4..8]);
    U32Inverse(bytes[8..12]);
    var n := SizeIn(bytes);
  }

  // ---- One iteration ---------------------------------------------------------------------------------

  /** The frame as the loop sees it: header fields and payload in the buffer. */
  function FrameOf(bytes: seq<Byte>, size: nat): (f: Frame)
    requires HEADER <= size <= |bytes|
  {
    Frame(DecodeU32(bytes[0..4]), DecodeU32(bytes[8..12]), bytes[HEADER..size])
  }

  /** `if (header->size > buffer.size()) buffer.resize(header->size)`. */
  function Grown(bytes: seq<Byte>, size: nat): (r: seq<Byte>)
    ensures |r| >= |bytes| && |r| >= size && r[..|bytes|] == bytes
  {
    if size > |bytes| then bytes + seq(size - |bytes|, _ => 0) else bytes
  }

  /** What one iteration leads to: the outcome, what is left to receive, and the buffer. */
  datatype Turn = Turn(one: One, stream: seq<Byte>, plan: seq<Reply>, buffer: seq<Byte>)

  /** One iteration, whatever the chunks: header read, growth, payload read. */
  ghost function Iteration(stream: seq<Byte>, plan: seq<Reply>, buffer: seq<Byte>, refusal: int): (t: Turn)
    requires |buffer| >= INITIAL_BUFFER
    ensures |t.buffer| >= |buffer|
  {
    var t := Receive(stream, plan, HEADER);
    var b := Filled(buffer, 0, HEADER, t.chunks);
    if t.end.Done? then Payload(t.stream, t.plan, b, SizeIn(b), refusal) else Turn(Stop(t.end), t.stream, t.plan, b)
  }

  ghost function Payload(stream: seq<Byte>, plan: seq<Reply>, buffer: seq<Byte>, size: nat, refusal: int): (t: Turn)
    requires |buffer| >= INITIAL_BUFFER
    ensures |t.buffer| >= |buffer|
  {
    var grown := Grown(buffer, size);
    if !Readable(size) then Turn(Stop(FailedWith(refusal)), stream, plan, grown)
    else
      var t := Receive(stream, plan, size - HEADER);
      var b := Filled(grown, HEADER, size - HEADER, t.chunks);
      Turn(if t.end.Done? then Got(Visit(FrameOf(b, size), b[..HELLO_SIZE])) else Stop(t.end), t.stream, t.plan, b)
  }

  method Grow(buffer: array<Byte>, size: nat) returns (buffer': array<Byte>)
    ensures buffer' == buffer || fresh(buffer')
    ensures buffer'[..] == Grown(buffer[..], size)
    ensures forall i :: buffer.Length <= i < buffer'.Length ==> buffer'[i] == 0
  {
    buffer' := buffer;
    if size > buffer.Length {
      buffer' := new Byte[size](_ => 0);
      for i := 0 to buffer.Length
        invariant forall j :: 0 <= j < i ==> buffer'[j] == buffer[j]
        invariant forall j :: i <= j < size ==> buffer'[j] == 0
      {
        buffer'[i] := buffer[i];
      }
    }
  }

  method ReadPayload(socket: Socket, buffer: array<Byte>, size: nat) returns (buffer': array<Byte>, one: One)
    requires buffer.Length >= INITIAL_BUFFER
    modifies socket, buffer
    ensures buffer' == buffer || fresh(buffer')
    ensures Turn(one, socket.stream, socket.plan, buffer'[..])
         == Payload(old(socket.stream), old(socket.plan), old(buffer[..]), size, socket.refusal)
  {
    buffer' := Grow(buffer, size);
    if !Readable(size) {
      return buffer', Stop(FailedWith(socket.refusal));
    }
    var end := ReadNBytes(socket, buffer', HEADER, size - HEADER);
    one := if end.Done? then Got(Visit(FrameOf(buffer'[..], size), buffer'[..HELLO_SIZE])) else Stop(end);
  }

  /** One iteration of the loop does what Iteration says, for every chunking.  The Hello view is inside the buffer. */
  method ReadFrame(socket: Socket, buffer: array<Byte>) returns (buffer': array<Byte>, one: One)
    requires buffer.Length >= INITIAL_BUFFER
    modifies socket, buffer
    ensures buffer' == buffer || fresh(buffer')
    ensures Turn(one, socket.stream, socket.plan, buffer'[..])
         == Iteration(old(socket.stream), old(socket.plan), old(buffer[..]), socket.refusal)
  {
    var end := ReadNBytes(socket, buffer, 0, HEADER);
    if !end.Done? {
      return buffer, Stop(end);
    }
    buffer', one := ReadPayload(socket, buffer, SizeIn(buffer[..]));
  }

  // ---- The whole session -------------------------------------------------------------------------------

  datatype Served = Served(visits: seq<Visit>, end: ReadEnd)

  lemma ReadShrinks(stream: seq<Byte>, plan: seq<Reply>, want: nat)
    ensures var t := Receive(stream, plan, want); |t.stream| <= |stream| && (t.end.Done? ==> |t.stream| + want == |stream|)
  {
    ReadConsumes(stream, plan, want);
  }

  lemma PayloadShrinks(stream: seq<Byte>, plan: seq<Reply>, buffer: seq<Byte>, n: nat, refusal: int)
    requires |buffer| >= INITIAL_BUFFER
    ensures |Payload(stream, plan, buffer, n, refusal).stream| <= |stream|
  {
    if Readable(n) {
      ReadShrinks(stream, plan, n - HEADER);
    }
  }

  lemma IterationConsumes(stream: seq<Byte>, plan: seq<Reply>, buffer: seq<Byte>, refusal: int)
    requires |buffer| >= INITIAL_BUFFER
    ensures Iteration(stream, plan, buffer, refusal).one.Got? ==> |Iteration(stream, plan, buffer, refusal).stream| < |stream|
  {
    var t := Receive(stream, plan, HEADER);
    var b := Filled(buffer, 0, HEADER, t.chunks);
    ReadShrinks(stream, plan, HEADER);
    PayloadShrinks(t.stream, t.plan, b, SizeIn(b), refusal);
  }

  /** All iterations until one stops. */
  ghost function Session(stream: seq<Byte>, plan: seq<Reply>, buffer: seq<Byte>, refusal: int): (r: Served)
    requires |buffer| >= INITIAL_BUFFER
    decreases |stream|
  {
    var t := Iteration(stream, plan, buffer, refusal);
    match t.one
    case Stop(end) => Served([], end)
    case Got(v) =>
      IterationConsumes(stream, plan, buffer, refusal);
      var rest := Session(t.stream, t.plan, t.buffer, refusal);
      rest.(visits := [v] + rest.visits)
  }

  /** A session is its first iteration and the session from there. */
  lemma SessionUnfolds(stream: seq<Byte>, plan: seq<Reply>, buffer: seq<Byte>, refusal: int)
    requires |buffer| >= INITIAL_BUFFER
    ensures var t, r := Iteration(stream, plan, buffer, refusal), Session(stream, plan, buffer, refusal);
      match t.one
      case Stop(end) => r == Served([], end)
      case Got(v) =>
        && |t.stream| < |stream|
        && r == Served([v] + Session(t.stream, t.plan, t.buffer, refusal).visits, Session(t.stream, t.plan, t.buffer, refusal).end)
  {
    IterationConsumes(stream, plan, buffer, refusal);
  }

  /** After these visits the session goes on from here. */
  ghost predicate GoesOn(all: Served, visits: seq<Visit>, stream: seq<Byte>, plan: seq<Reply>, buffer: seq<Byte>, refusal: int) {
    |buffer| >= INITIAL_BUFFER &&
    var rest := Session(stream, plan, buffer, refusal);
    all == Served(visits + rest.visits, rest.end)
  }

  lemma GoesOnStep(all: Served, visits: seq<Visit>, stream: seq<Byte>, plan: seq<Reply>, buffer: seq<Byte>, refusal: int)
    requires GoesOn(all, visits, stream, plan, buffer, refusal)
    ensures var t := Iteration(stream, plan, buffer, refusal);
      match t.one
      case Stop(end) => all == Served(visits, end)
      case Got(v) => |t.stream| < |stream| && GoesOn(all, visits + [v], t.stream, t.plan, t.buffer, refusal)
  {
    SessionUnfolds(stream, plan, buffer, refusal);
    var t := Iteration(stream, plan, buffer, refusal);
    if t.one.Got? {
      var rest := Session(t.stream, t.plan, t.buffer, refusal).visits;
      assert visits + ([t.one.visit] + rest) == (visits + [t.one.visit]) + rest;
    }
  }

  /** AcceptOnce's loop, until reading fails, over one reused buffer. */
  method Serve(socket: Socket) returns (visits: seq<Visit>, end: ReadEnd)
    modifies socket
    ensures Served(visits, end)
         == Session(old(socket.stream), old(socket.plan), seq(1024, _ => 0), socket.refusal)
  {
    var buffer := new Byte[INITIAL_BUFFER](_ => 0);
    visits := [];
    assert buffer[..] == seq(1024, _ => 0);
    ghost var all := Session(socket.stream, socket.plan, buffer[..], socket.refusal);
    assert visits + all.visits == all.visits;
    while true
      invariant fresh(buffer)
      invariant GoesOn(all, visits, socket.stream, socket.plan, buffer[..], socket.refusal)
      decreases |socket.stream|
    {
      GoesOnStep(all, visits, socket.stream, socket.plan, buffer[..], socket.refusal);
      var one: One;
      buffer, one := ReadFrame(socket, buffer);
      if one.Stop? {
        return visits, one.end;
      }
      visits := visits + [one.visit];
    }
  }

  // ---- Every chunking: the view and the frame come from one buffer ---------------------------------------

  /** Of a Hello of full length, the view and the frame agree: both are read from the same buffer. */
  ghost predicate ViewExact(v: Visit) {
    && |v.helloView| == HELLO_SIZE
    && (ValidFrame(v.frame) && HEADER + |v.frame.payload| >= HELLO_SIZE ==> v.helloView == Encode(v.frame)[..HELLO_SIZE])
  }

  /** A payload read leaves the header alone. */
  lemma HeaderKept(grown: seq<Byte>, count: nat, chunks: seq<seq<Byte>>)
    requires HEADER + count <= |grown|
    ensures Filled(grown, HEADER, count, chunks)[..HEADER] == grown[..HEADER]
  {
  }

  lemma SizeFromHeader(a: seq<Byte>, b: seq<Byte>)
    requires |a| >= HEADER && |b| >= HEADER && a[..HEADER] == b[..HEADER]
    ensures SizeIn(a) == SizeIn(b) && a[8..12] == b[8..12]
  {
    assert a[4..8] == a[..HEADER][4..8] && b[4..8] == b[..HEADER][4..8];
    assert a[8..12] == a[..HEADER][8..12] && b[8..12] == b[..HEADER][8..12];
  }

  lemma GrownHeader(buffer: seq<Byte>, n: nat)
    requires |buffer| >= HEADER
    ensures Grown(buffer, n)[..HEADER] == buffer[..HEADER]
  {
    assert Grown(buffer, n)[..HEADER] == Grown(buffer, n)[..|buffer|][..HEADER];
  }

  lemma PayloadView(stream: seq<Byte>, plan: seq<Reply>, buffer: seq<Byte>, refusal: int)
    requires |buffer| >= INITIAL_BUFFER && Payload(stream, plan, buffer, SizeIn(buffer), refusal).one.Got?
    ensures ViewExact(Payload(stream, plan, buffer, SizeIn(buffer), refusal).one.visit)
  {
    var size := SizeIn(buffer);
    var grown, t := Grown(buffer, size), Receive(stream, plan, size - HEADER);
    var b := Filled(grown, HEADER, size - HEADER, t.chunks);
    HeaderKept(grown, size - HEADER, t.chunks);
    GrownHeader(buffer, size);
    SizeFromHeader(b, buffer);
    ReencodedFrame(b);
  }

  lemma IterationView(stream: seq<Byte>, plan: seq<Reply>, buffer: seq<Byte>, refusal: int)
    requires |buffer| >= INITIAL_BUFFER && Iteration(stream, plan, buffer, refusal).one.Got?
    ensures ViewExact(Iteration(stream, plan, buffer, refusal).one.visit)
  {
    var h := Receive(stream, plan, HEADER);
    PayloadView(h.stream, h.plan, Filled(buffer, 0, HEADER, h.chunks), refusal);
  }

  ghost predicate AllExact(visits: seq<Visit>) {
    forall i :: 0 <= i < |visits| ==> ViewExact(visits[i])
  }

  /** However the stream is chunked, every view lies inside the buffer and agrees with its frame. */
  lemma {:induction false} ViewsInside(stream: seq<Byte>, plan: seq<Reply>, buffer: seq<Byte>, refusal: int)
    requires |buffer| >= INITIAL_BUFFER
    ensures AllExact(Session(stream, plan, buffer, refusal).visits)
    decreases |stream|
  {
    var t := Iteration(stream, plan, buffer, refusal);
    SessionUnfolds(stream, plan, buffer, refusal);
    if t.one.Got? {
      IterationView(stream, plan, buffer, refusal);
      ViewsInside(t.stream, t.plan, t.buffer, refusal);
    }
  }

  // ---- When the session is the parse of the stream ---------------------------------------------------------

  /** No recv fails; the stream ends by closing. */
  ghost predicate NoFailure(plan: seq<Reply>) {
    forall i :: 0 <= i < |plan| ==> plan[i].Deliver?
  }

  lemma {:induction false} KeepsNoFailure(stream: seq<Byte>, plan: seq<Reply>, want: nat)
    requires NoFailure(plan)
    ensures var t := Receive(stream, plan, want);
      NoFailure(t.plan) && (t.end.Done? || (t.end == SocketClosed && |stream| < want))
    decreases want
  {
    if Answers(stream, plan, want) {
      var n := ChunkSize(stream, plan, want);
      KeepsNoFailure(stream[n..], Tail(plan), want - n);
    }
  }

  lemma ReadEnds(stream: seq<Byte>, plan: seq<Reply>, want: nat)
    requires NoFailure(plan)
    ensures var t := Receive(stream, plan, want);
      && NoFailure(t.plan) && (t.end == if want <= |stream| then Done else SocketClosed)
      && (want <= |stream| ==> t.stream == stream[want..])
  {
    KeepsNoFailure(stream, plan, want);
    ReadConsumes(stream, plan, want);
  }

  /** A complete read of at most one chunk puts the stream's bytes in place and touches nothing else. */
  lemma WholeRead(before: seq<Byte>, at: nat, stream: seq<Byte>, plan: seq<Reply>, want: nat)
    requires at + want <= |before|
    requires var t := Receive(stream, plan, want); t.end.Done? && |t.chunks| <= 1
    ensures want <= |stream|
    ensures Filled(before, at, want, Receive(stream, plan, want).chunks) == before[..at] + stream[..want] + before[at + want..]
  {
    OneChunkExact(before[at..at + want], stream, plan);
  }

  predicate FrameAhead(stream: seq<Byte>) {
    |stream| >= HEADER && Readable(SizeIn(stream)) && SizeIn(stream) <= |stream|
  }

  /** The payload read that follows an intact header. */
  ghost function PayloadRead(stream: seq<Byte>, plan: seq<Reply>): Trace
    requires FrameAhead(stream)
  {
    Receive(stream[HEADER..], Receive(stream, plan, HEADER).plan, SizeIn(stream) - HEADER)
  }

  /** Both reads of the frame ahead come in at most one chunk. */
  ghost predicate FrameWhole(stream: seq<Byte>, plan: seq<Reply>)
    requires FrameAhead(stream)
  {
    |Receive(stream, plan, HEADER).chunks| <= 1 && |PayloadRead(stream, plan).chunks| <= 1
  }

  /** The 800 bytes looked at as a Hello: the frame's, and past its end those of the previous view. */
  function Viewed(prev: seq<Byte>, f: Frame): (r: seq<Byte>)
    requires |prev| == HELLO_SIZE && ValidFrame(f)
    ensures |r| == HELLO_SIZE
  {
    var e := Encode(f);
    if |e| >= HELLO_SIZE then e[..HELLO_SIZE] else e + prev[|e|..]
  }

  /** A buffer that holds the stream's first frame, and past it what it held before. */
  lemma FrameArrived(stream: seq<Byte>, prev: seq<Byte>, bytes: seq<Byte>)
    requires FrameAhead(stream) && SizeIn(stream) <= |bytes| && bytes[..SizeIn(stream)] == stream[..SizeIn(stream)]
    requires |prev| == HELLO_SIZE && |bytes| >= HELLO_SIZE
    requires SizeIn(stream) < HELLO_SIZE ==> bytes[SizeIn(stream)..HELLO_SIZE] == prev[SizeIn(stream)..]
    ensures FrameOf(bytes, SizeIn(stream)) == FrameIn(stream) && ValidFrame(FrameIn(stream))
    ensures bytes[..HELLO_SIZE] == Viewed(prev, FrameIn(stream))
  {
    var n := SizeIn(stream);
    assert forall k :: 0 <= k < n ==> bytes[k] == bytes[..n][k] == stream[k];
    assert bytes[0..4] == stream[0..4] && bytes[8..12] == stream[8..12] && bytes[HEADER..n] == stream[HEADER..n];
    ReencodedFrame(stream);
    assert bytes[..HELLO_SIZE] == if n < HELLO_SIZE then bytes[..n] + bytes[n..HELLO_SIZE] else bytes[..n][..HELLO_SIZE];
  }

  /** The buffer after header, growth and body, when each came in one piece. */
  lemma PiecesMakeFrame(stream: seq<Byte>, buffer: seq<Byte>, grown: seq<Byte>, bytes: seq<Byte>)
    requires FrameAhead(stream) && |buffer| >= INITIAL_BUFFER && |grown| >= |buffer| && |grown| >= SizeIn(stream)
    requires grown[..|buffer|] == stream[..HEADER] + buffer[HEADER..]
    requires bytes == grown[..HEADER] + stream[HEADER..SizeIn(stream)] + grown[SizeIn(stream)..]
    ensures FrameOf(bytes, SizeIn(stream)) == FrameIn(stream) && ValidFrame(FrameIn(stream))
    ensures bytes[..HELLO_SIZE] == Viewed(buffer[..HELLO_SIZE], FrameIn(stream))
  {
    var n := SizeIn(stream);
    assert grown[..HEADER] == grown[..|buffer|][..HEADER] == stream[..HEADER];
    assert bytes[..n] == stream[..n];
    if n < HELLO_SIZE {
      assert bytes[n..HELLO_SIZE] == grown[n..HELLO_SIZE] == grown[..|buffer|][n..HELLO_SIZE] == buffer[n..HELLO_SIZE];
    }
    FrameArrived(stream, buffer[..HELLO_SIZE], bytes);
  }

  /** What the reference parser would have the iteration do. */
  ghost predicate FrameRight(stream: seq<Byte>, plan: seq<Reply>, buffer: seq<Byte>, refusal: int)
    requires FrameAhead(stream)
  {
    |buffer| >= INITIAL_BUFFER ==>
      var t := Iteration(stream, plan, buffer, refusal);
      t.one.Got? && t.one.visit.frame == FrameIn(stream)
  }

  /** After an intact header the iteration is the payload read. */
  lemma IterationIsPayload(stream: seq<Byte>, plan: seq<Reply>, buffer: seq<Byte>, refusal: int)
    requires |stream| >= HEADER && NoFailure(plan) && |Receive(stream, plan, HEADER).chunks| <= 1 && |buffer| >= INITIAL_BUFFER
    ensures var t := Receive(stream, plan, HEADER);
      && t.stream == stream[HEADER..] && NoFailure(t.plan)
      && Iteration(stream, plan, buffer, refusal)
         == Payload(stream[HEADER..], t.plan, stream[..HEADER] + buffer[HEADER..], SizeIn(stream), refusal)
  {
    ReadEnds(stream, plan, HEADER);
    WholeHeader(stream, plan, buffer);
  }

  /** The buffer with n - HEADER bytes of payload laid behind the header. */
  function PayloadOver(payload: seq<Byte>, buffer: seq<Byte>, n: nat): (c: seq<Byte>)
    requires |buffer| >= INITIAL_BUFFER && HEADER <= n <= HEADER + |payload|
    ensures |c| >= INITIAL_BUFFER && |c| >= n
  {
    var g := Grown(buffer, n);
    g[..HEADER] + payload[..n - HEADER] + g[n..]
  }

  /** A payload that comes whole lands behind the header and touches nothing else. */
  lemma WholePayload(stream: seq<Byte>, plan: seq<Reply>, buffer: seq<Byte>, n: nat, refusal: int)
    requires |buffer| >= INITIAL_BUFFER && Readable(n) && n - HEADER <= |stream| && NoFailure(plan)
    requires |Receive(stream, plan, n - HEADER).chunks| <= 1
    ensures var c := PayloadOver(stream, buffer, n);
      && NoFailure(Receive(stream, plan, n - HEADER).plan)
      && Payload(stream, plan, buffer, n, refusal)
         == Turn(Got(Visit(FrameOf(c, n), c[..HELLO_SIZE])), stream[n - HEADER..], Receive(stream, plan, n - HEADER).plan, c)
  {
    ReadEnds(stream, plan, n - HEADER);
    WholeRead(Grown(buffer, n), HEADER, stream, plan, n - HEADER);
  }

  lemma WholeHeader(stream: seq<Byte>, plan: seq<Reply>, buffer: seq<Byte>)
    requires |stream| >= HEADER && NoFailure(plan) && |Receive(stream, plan, HEADER).chunks| <= 1 && |buffer| >= INITIAL_BUFFER
    ensures var b := Filled(buffer, 0, HEADER, Receive(stream, plan, HEADER).chunks);
      b == stream[..HEADER] + buffer[HEADER..] && SizeIn(b) == SizeIn(stream)
  {
    ReadEnds(stream, plan, HEADER);
    WholeRead(buffer, 0, stream, plan, HEADER);
    SizeFromHeader(stream[..HEADER] + buffer[HEADER..], stream);
  }

  /** The buffer after a frame that came whole. */
  function FrameOver(stream: seq<Byte>, buffer: seq<Byte>): (c: seq<Byte>)
    requires FrameAhead(stream) && |buffer| >= INITIAL_BUFFER
    ensures |c| >= INITIAL_BUFFER && |c| >= SizeIn(stream)
  {
    PayloadOver(stream[HEADER..], stream[..HEADER] + buffer[HEADER..], SizeIn(stream))
  }

  lemma SliceTwice(stream: seq<Byte>, n: nat)
    requires HEADER <= n <= |stream|
    ensures stream[HEADER..][..n - HEADER] == stream[HEADER..n] && stream[HEADER..][n - HEADER..] == stream[n..]
  {
  }

  lemma FrameOverHolds(stream: seq<Byte>, buffer: seq<Byte>)
    requires FrameAhead(stream) && |buffer| >= INITIAL_BUFFER
    ensures var c := FrameOver(stream, buffer);
      && FrameOf(c, SizeIn(stream)) == FrameIn(stream) && ValidFrame(FrameIn(stream))
      && c[..HELLO_SIZE] == Viewed(buffer[..HELLO_SIZE], FrameIn(stream))
  {
    SliceTwice(stream, SizeIn(stream));
    PiecesMakeFrame(stream, buffer, Grown(stream[..HEADER] + buffer[HEADER..], SizeIn(stream)), FrameOver(stream, buffer));
  }

  /** The turn that reads the frame ahead and views it over the buffer. */
  ghost function RightTurn(stream: seq<Byte>, plan: seq<Reply>, buffer: seq<Byte>): Turn
    requires FrameAhead(stream) && ValidFrame(FrameIn(stream)) && |buffer| >= INITIAL_BUFFER
  {
    Turn(Got(Visit(FrameIn(stream), Viewed(buffer[..HELLO_SIZE], FrameIn(stream)))), stream[SizeIn(stream)..], plan, FrameOver(stream, buffer))
  }

  lemma WholePayloadTurn(stream: seq<Byte>, plan: seq<Reply>, buffer: seq<Byte>, refusal: int)
    requires FrameAhead(stream) && NoFailure(plan) && |buffer| >= INITIAL_BUFFER
    requires |Receive(stream[HEADER..], plan, SizeIn(stream) - HEADER).chunks| <= 1
    ensures ValidFrame(FrameIn(stream)) && FrameOver(stream, buffer)[..HELLO_SIZE] == Viewed(buffer[..HELLO_SIZE], FrameIn(stream))
    ensures var plan' := Receive(stream[HEADER..], plan, SizeIn(stream) - HEADER).plan;
      && NoFailure(plan')
      && Payload(stream[HEADER..], plan, stream[..HEADER] + buffer[HEADER..], SizeIn(stream), refusal) == RightTurn(stream, plan', buffer)
  {
    SliceTwice(stream, SizeIn(stream));
    FrameOverHolds(stream, buffer);
    WholePayload(stream[HEADER..], plan, stream[..HEADER] + buffer[HEADER..], SizeIn(stream), refusal);
  }

  /** A frame that comes whole is read right, and viewed over what the buffer held. */
  lemma WholeFrame(stream: seq<Byte>, plan: seq<Reply>, buffer: seq<Byte>, refusal: int)
    requires FrameAhead(stream) && NoFailure(plan) && FrameWhole(stream, plan) && |buffer| >= INITIAL_BUFFER
    ensures ValidFrame(FrameIn(stream)) && FrameOver(stream, buffer)[..HELLO_SIZE] == Viewed(buffer[..HELLO_SIZE], FrameIn(stream))
    ensures NoFailure(PayloadRead(stream, plan).plan)
    ensures Iteration(stream, plan, buffer, refusal) == RightTurn(stream, PayloadRead(stream, plan).plan, buffer)
  {
    IterationIsPayload(stream, plan, buffer, refusal);
    WholePayloadTurn(stream, Receive(stream, plan, HEADER).plan, buffer, refusal);
  }

  // ---- ... and when it is not --------------------------------------------------------------------------------

  lemma U32Apart(a: seq<Byte>, b: seq<Byte>)
    requires |a| == 4 && |b| == 4 && a[3] != b[3]
    ensures DecodeU32(a) != DecodeU32(b)
  {
    U32Inverse(a);
    U32Inverse(b);
  }

  /** The payload read leaves the tablet ID that the header read left. */
  lemma PayloadKeepsId(stream: seq<Byte>, plan: seq<Reply>, buffer: seq<Byte>, n: nat, refusal: int)
    requires |buffer| >= INITIAL_BUFFER && Payload(stream, plan, buffer, n, refusal).one.Got?
    ensures Payload(stream, plan, buffer, n, refusal).one.visit.frame.id == DecodeU32(buffer[8..12])
  {
    var grown, t := Grown(buffer, n), Receive(stream, plan, n - HEADER);
    HeaderKept(grown, n - HEADER, t.chunks);
    GrownHeader(buffer, n);
    SizeFromHeader(Filled(grown, HEADER, n - HEADER, t.chunks), buffer);
  }

  lemma SplitHeaderKeepsByte(stream: seq<Byte>, plan: seq<Reply>, buffer: seq<Byte>)
    requires |stream| >= HEADER && NoFailure(plan) && |Receive(stream, plan, HEADER).chunks| >= 2 && |buffer| >= INITIAL_BUFFER
    ensures Filled(buffer, 0, HEADER, Receive(stream, plan, HEADER).chunks)[11] == buffer[11]
  {
    ReadEnds(stream, plan, HEADER);
    SplitReadMissesLast(buffer[0..HEADER], stream, plan);
  }

  /** A split header keeps the old byte 11, the top byte of the tablet ID. */
  lemma SplitHeaderWrong(stream: seq<Byte>, plan: seq<Reply>, buffer: seq<Byte>, refusal: int)
    requires FrameAhead(stream) && NoFailure(plan) && |Receive(stream, plan, HEADER).chunks| >= 2
    requires |buffer| >= INITIAL_BUFFER && buffer[11] != stream[11]
    ensures !FrameRight(stream, plan, buffer, refusal)
  {
    var t := Receive(stream, plan, HEADER);
    var b := Filled(buffer, 0, HEADER, t.chunks);
    SplitHeaderKeepsByte(stream, plan, buffer);
    U32Apart(b[8..12], stream[8..12]);
    if Iteration(stream, plan, buffer, refusal).one.Got? {
      PayloadKeepsId(t.stream, t.plan, b, SizeIn(b), refusal);
    }
  }

  lemma SplitFilled(stream: seq<Byte>, plan: seq<Reply>, buffer: seq<Byte>, n: nat)
    requires HEADER <= n <= |buffer|
    requires var t := Receive(stream, plan, n - HEADER); t.end.Done? && |t.chunks| >= 2
    ensures n > HEADER && Filled(buffer, HEADER, n - HEADER, Receive(stream, plan, n - HEADER).chunks)[n - 1] == buffer[n - 1]
  {
    SplitReadMissesLast(buffer[HEADER..n], stream, plan);
  }

  /** A split payload keeps the last byte that was there. */
  lemma SplitPayloadKeepsByte(stream: seq<Byte>, plan: seq<Reply>, buffer: seq<Byte>, n: nat, refusal: int)
    requires |buffer| >= INITIAL_BUFFER && Readable(n) && n <= |buffer|
    requires var t := Receive(stream, plan, n - HEADER); t.end.Done? && |t.chunks| >= 2
    ensures var one := Payload(stream, plan, buffer, n, refusal).one;
      n > HEADER && one.Got? && |one.visit.frame.payload| == n - HEADER && one.visit.frame.payload[n - HEADER - 1] == buffer[n - 1]
  {
    SplitFilled(stream, plan, buffer, n);
  }

  lemma LastPayloadByte(stream: seq<Byte>)
    requires FrameAhead(stream) && SizeIn(stream) > HEADER
    ensures var f, n := FrameIn(stream), SizeIn(stream) - HEADER; |f.payload| == n && f.payload[n - 1] == stream[HEADER + n - 1]
  {
  }

  /** ... so the frame is not the one that was sent. */
  lemma SplitPayloadDiffers(stream: seq<Byte>, plan: seq<Reply>, b: seq<Byte>, refusal: int)
    requires FrameAhead(stream) && |b| >= INITIAL_BUFFER && |b| >= SizeIn(stream)
    requires var t := Receive(stream[HEADER..], plan, SizeIn(stream) - HEADER); t.end.Done? && |t.chunks| >= 2
    requires SizeIn(stream) > HEADER ==> b[SizeIn(stream) - 1] != stream[SizeIn(stream) - 1]
    ensures var one := Payload(stream[HEADER..], plan, b, SizeIn(stream), refusal).one;
      one.Got? && one.visit.frame != FrameIn(stream)
  {
    SplitPayloadKeepsByte(stream[HEADER..], plan, b, SizeIn(stream), refusal);
    LastPayloadByte(stream);
  }

  lemma PayloadReadDone(stream: seq<Byte>, plan: seq<Reply>)
    requires FrameAhead(stream) && NoFailure(plan)
    ensures PayloadRead(stream, plan).end.Done? && NoFailure(PayloadRead(stream, plan).plan)
  {
    ReadEnds(stream, plan, HEADER);
    ReadEnds(stream[HEADER..], Receive(stream, plan, HEADER).plan, SizeIn(stream) - HEADER);
  }

  lemma SplitPayloadWrong(stream: seq<Byte>, plan: seq<Reply>, buffer: seq<Byte>, refusal: int)
    requires FrameAhead(stream) && NoFailure(plan) && |Receive(stream, plan, HEADER).chunks| <= 1
    requires |PayloadRead(stream, plan).chunks| >= 2
    requires |buffer| >= INITIAL_BUFFER && |buffer| >= SizeIn(stream)
    requires buffer[SizeIn(stream) - 1] != stream[SizeIn(stream) - 1]
    ensures !FrameRight(stream, plan, buffer, refusal)
  {
    var b := stream[..HEADER] + buffer[HEADER..];
    PayloadReadDone(stream, plan);
    SplitPayloadDiffers(stream, Receive(stream, plan, HEADER).plan, b, refusal);
    IterationIsPayload(stream, plan, buffer, refusal);
  }

  /**
    One frame: the iteration reads it right whatever the buffer held before exactly when header and
    payload each came in at most one chunk.
   */
  lemma FrameRightIff(stream: seq<Byte>, plan: seq<Reply>, refusal: int)
    requires FrameAhead(stream) && NoFailure(plan)
    ensures (forall buffer: seq<Byte> :: FrameRight(stream, plan, buffer, refusal)) <==> FrameWhole(stream, plan)
  {
    if FrameWhole(stream, plan) {
      forall buffer: seq<Byte> ensures FrameRight(stream, plan, buffer, refusal) {
        if |buffer| >= INITIAL_BUFFER {
          WholeFrame(stream, plan, buffer, refusal);
        }
      }
    } else {
      var wrong: seq<Byte> := seq(|stream| + INITIAL_BUFFER, i requires 0 <= i => if i < |stream| && stream[i] == 0 then 1 else 0);
      if |Receive(stream, plan, HEADER).chunks| >= 2 {
        SplitHeaderWrong(stream, plan, wrong, refusal);
      } else {
        SplitPayloadWrong(stream, plan, wrong, refusal);
      }
      assert !FrameRight(stream, plan, wrong, refusal);
    }
  }

  /** Every frame of the stream comes whole, and so does a header with no complete frame behind it. */
  ghost predicate AllWhole(stream: seq<Byte>, plan: seq<Reply>)
    decreases |stream|
  {
    if FrameAhead(stream) then FrameWhole(stream, plan) && AllWhole(stream[SizeIn(stream)..], PayloadRead(stream, plan).plan)
    else |stream| >= HEADER ==> |Receive(stream, plan, HEADER).chunks| <= 1
  }

  lemma UnplannedRead(stream: seq<Byte>, want: nat)
    ensures Receive(stream, [], want).plan == [] && |Receive(stream, [], want).chunks| <= 1
  {
  }

  /** With nothing planned, recv returns all it is asked for, so everything comes whole. */
  lemma {:induction false} UnplannedIsWhole(stream: seq<Byte>)
    ensures AllWhole(stream, [])
    decreases |stream|
  {
    UnplannedRead(stream, HEADER);
    if FrameAhead(stream) {
      UnplannedRead(stream[HEADER..], SizeIn(stream) - HEADER);
      UnplannedIsWhole(stream[SizeIn(stream)..]);
    }
  }

  function Frames(visits: seq<Visit>): seq<Frame> {
    seq(|visits|, i requires 0 <= i < |visits| => visits[i].frame)
  }

  /** What the first 800 bytes of the buffer hold after these visits. */
  function Left(first: seq<Byte>, visits: seq<Visit>): (r: seq<Byte>) {
    if |visits| == 0 then first else visits[|visits| - 1].helloView
  }

  /** Each view is its frame laid over the view before it, and the first one over the buffer. */
  ghost predicate ViewsFollow(first: seq<Byte>, visits: seq<Visit>)
    decreases |visits|
  {
    |visits| > 0 ==>
      && |first| == HELLO_SIZE && ValidFrame(visits[0].frame)
      && visits[0].helloView == Viewed(first, visits[0].frame)
      && ViewsFollow(visits[0].helloView, visits[1..])
  }

  lemma VisitsCons(first: seq<Byte>, v: Visit, rest: seq<Visit>)
    requires |first| == HELLO_SIZE && ValidFrame(v.frame) && v.helloView == Viewed(first, v.frame)
    requires ViewsFollow(v.helloView, rest)
    ensures Frames([v] + rest) == [v.frame] + Frames(rest) && ViewsFollow(first, [v] + rest)
  {
    assert ([v] + rest)[1..] == rest;
  }

  lemma PayloadStops(stream: seq<Byte>, plan: seq<Reply>, buffer: seq<Byte>, n: nat, refusal: int)
    requires |buffer| >= INITIAL_BUFFER && NoFailure(plan) && (Readable(n) ==> |stream| < n - HEADER)
    ensures Payload(stream, plan, buffer, n, refusal).one == Stop(if Readable(n) then SocketClosed else FailedWith(refusal))
  {
    if Readable(n) {
      ReadEnds(stream, plan, n - HEADER);
    }
  }

  lemma HeaderStops(stream: seq<Byte>, plan: seq<Reply>, buffer: seq<Byte>, refusal: int)
    requires NoFailure(plan) && |stream| < HEADER && |buffer| >= INITIAL_BUFFER
    ensures Iteration(stream, plan, buffer, refusal).one == Stop(SocketClosed)
  {
    ReadEnds(stream, plan, HEADER);
  }

  /** With no complete frame ahead the session ends as the parser does. */
  lemma EndsLikeParser(stream: seq<Byte>, plan: seq<Reply>, buffer: seq<Byte>, refusal: int)
    requires NoFailure(plan) && AllWhole(stream, plan) && |buffer| >= INITIAL_BUFFER && !FrameAhead(stream)
    ensures Iteration(stream, plan, buffer, refusal).one == Stop(Parse(stream, refusal).end) && Parse(stream, refusal).frames == []
  {
    if |stream| < HEADER {
      HeaderStops(stream, plan, buffer, refusal);
    } else {
      var t := Receive(stream, plan, HEADER);
      IterationIsPayload(stream, plan, buffer, refusal);
      PayloadStops(stream[HEADER..], t.plan, stream[..HEADER] + buffer[HEADER..], SizeIn(stream), refusal);
    }
  }

  /**
    The session: when every header and payload comes in at most one chunk, the loop visits exactly
    the reference parser's frames and ends as it does, whatever the buffer held before, and each view
    is its frame laid over what the earlier ones left.
   */
  lemma {:induction false} SessionIsParse(stream: seq<Byte>, plan: seq<Reply>, buffer: seq<Byte>, refusal: int)
    requires NoFailure(plan) && AllWhole(stream, plan) && |buffer| >= INITIAL_BUFFER
    ensures var r := Session(stream, plan, buffer, refusal);
      Parsed(Frames(r.visits), r.end) == Parse(stream, refusal) && ViewsFollow(buffer[..HELLO_SIZE], r.visits)
    decreases |stream|
  {
    SessionUnfolds(stream, plan, buffer, refusal);
    if FrameAhead(stream) {
      var t := Iteration(stream, plan, buffer, refusal);
      WholeFrame(stream, plan, buffer, refusal);
      SessionIsParse(t.stream, t.plan, t.buffer, refusal);
      VisitsCons(buffer[..HELLO_SIZE], t.one.visit, Session(t.stream, t.plan, t.buffer, refusal).visits);
    } else {
      EndsLikeParser(stream, plan, buffer, refusal);
    }
  }

  /** Each frame of the stream is read right from every buffer. */
  ghost predicate EveryFrameRight(stream: seq<Byte>, plan: seq<Reply>, refusal: int)
    decreases |stream|
  {
    FrameAhead(stream) ==>
      && (forall buffer: seq<Byte> :: FrameRight(stream, plan, buffer, refusal))
      && EveryFrameRight(stream[SizeIn(stream)..], PayloadRead(stream, plan).plan, refusal)
  }

  /** For any sequence of frames: they are all read right, whatever is in the buffer, exactly when they all come whole. */
  lemma {:induction false} SessionRightIff(fs: seq<Frame>, plan: seq<Reply>, refusal: int)
    requires (forall i :: 0 <= i < |fs| ==> ValidFrame(fs[i])) && NoFailure(plan)
    ensures EveryFrameRight(EncodeAll(fs), plan, refusal) <==> AllWhole(EncodeAll(fs), plan)
    decreases |fs|
  {
    if |fs| > 0 {
      var stream := EncodeAll(fs);
      FrameRoundTrip(fs[0], EncodeAll(fs[1..]));
      FrameRightIff(stream, plan, refusal);
      PayloadReadDone(stream, plan);
      SessionRightIff(fs[1..], PayloadRead(stream, plan).plan, refusal);
    }
  }
}
