/** The two messages with text in them: the Hello handshake and debug messages. */
module Messages {
  import opened Basics
  import opened FixedBuffer
  import opened Framing
  import opened FrameParser

  // ---- DebugMessage -------------------------------------------------------------------------------

  /** What SendDebugMessage builds; the size field is the total length cast to uint32_t. */
  function DebugBytes(text: seq<Byte>): (r: seq<Byte>)
    ensures |r| == HEADER + |text|
  {
    EncodeU32(DEBUG_MESSAGE) + EncodeU32((HEADER + |text|) % U32) + EncodeU32(0) + text
  }

  method SendDebugMessage(text: seq<Byte>) returns (buffer: array<Byte>)
    ensures fresh(buffer) && buffer[..] == DebugBytes(text)
  {
    var total := HEADER + |text|;
    buffer := new Byte[total](_ => 0);
    Store(buffer, 0, EncodeU32(DEBUG_MESSAGE) + EncodeU32(total % U32) + EncodeU32(0));
    Store(buffer, HEADER, text);
  }

  /** `message()`: the view starts after the header and has the header's size less 12 bytes. */
  function MessageText(bytes: seq<Byte>): (r: Option<seq<Byte>>)
    requires |bytes| >= HEADER
  {
    if HEADER <= SizeIn(bytes) <= |bytes| then Some(bytes[HEADER..SizeIn(bytes)]) else None
  }

  /** A debug message is read back unchanged exactly when its length fits the size field. */
  lemma DebugRoundTrip(text: seq<Byte>)
    ensures MessageText(DebugBytes(text)) == Some(text) <==> HEADER + |text| < U32
  {
    var b, n := DebugBytes(text), (HEADER + |text|) % U32;
    assert b[4..8] == EncodeU32(n);
    U32RoundTrip(n);
    if HEADER + |text| < U32 {
      assert b[HEADER..n] == text;
    } else if HEADER <= n <= |b| {
    }
  }

  lemma DebugIsFrame(text: seq<Byte>)
    requires |text| <= 0x7FFF_FFFF
    ensures DebugBytes(text) == Encode(Frame(4, 0, text))
  {
  }

  lemma OneFrame(f: Frame)
    requires ValidFrame(f)
    ensures EncodeAll([f]) == Encode(f)
  {
    assert [f][1..] == [];
    assert Encode(f) + [] == Encode(f);
  }

  /** What the receiving parser sees of it: one frame of type 4 with tablet ID 0 and the text. */
  lemma DebugParses(text: seq<Byte>, refusal: int)
    requires |text| <= 0x7FFF_FFFF
    ensures Parse(DebugBytes(text), refusal) == Parsed([Frame(4, 0, text)], SocketClosed)
  {
    DebugIsFrame(text);
    OneFrame(Frame(4, 0, text));
    ParseRoundTrip([Frame(4, 0, text)], refusal);
  }

  // ---- Hello --------------------------------------------------------------------------------------

  const FIELD: nat := 256

  function Field(text: seq<Byte>): (r: seq<Byte>)
    ensures |r| == FIELD
  {
    Padded(text, FIELD)
  }

  datatype Hello = Hello(protocol: seq<Byte>, name: seq<Byte>, version: seq<Byte>, implementation: seq<Byte>, compatibility: Byte)

  predicate ValidHello(h: Hello) {
    |h.protocol| == 8
  }

  /** The bytes after the header: alignment, protocol version, three fields, compatibility version, tail padding. */
  function HelloPayload(h: Hello): (r: seq<Byte>)
    requires ValidHello(h)
    ensures |r| == HELLO_SIZE - HEADER
  {
    [0, 0, 0, 0] + h.protocol + Field(h.name) + Field(h.version) + Field(h.implementation)
      + [h.compatibility, 0, 0, 0, 0, 0, 0, 0]
  }

  function HelloFrame(h: Hello): (f: Frame)
    requires ValidHello(h)
    ensures ValidFrame(f)
  {
    Frame(HELLO, 0, HelloPayload(h))
  }

  /** What a receiver takes out of a Hello view. */
  datatype HelloReading = HelloReading(
    messageType: nat, size: nat, tabletId: nat, protocol: seq<Byte>,
    name: seq<int>, version: seq<int>, implementation: seq<int>, compatibility: Byte)

  function ReadHello(view: seq<Byte>): (r: HelloReading)
    requires |view| == HELLO_SIZE
  {
    HelloReading(DecodeU32(view[0..4]), DecodeU32(view[4..8]), DecodeU32(view[8..12]), view[16..24],
                 Text(view[24..280]), Text(view[280..536]), Text(view[536..792]), view[792])
  }

  function Cut(text: seq<Byte>): (r: seq<int>) {
    Text(text[..Min(|text|, FIELD)])
  }

  lemma HelloHeader(h: Hello)
    requires ValidHello(h)
    ensures var bytes := Encode(HelloFrame(h));
      && |bytes| == HELLO_SIZE && bytes[12..] == HelloPayload(h)
      && DecodeU32(bytes[0..4]) == 6 && DecodeU32(bytes[4..8]) == 800 && DecodeU32(bytes[8..12]) == 0
  {
    var bytes := Encode(HelloFrame(h));
    assert bytes[0..4] == EncodeU32(HELLO) && bytes[4..8] == EncodeU32(HELLO_SIZE) && bytes[8..12] == EncodeU32(0);
    U32RoundTrip(HELLO);
    U32RoundTrip(HELLO_SIZE);
    U32RoundTrip(0);
  }

  lemma HelloLayout(h: Hello)
    requires ValidHello(h)
    ensures var p := HelloPayload(h);
      && p[4..12] == h.protocol && p[12..268] == Field(h.name) && p[268..524] == Field(h.version)
      && p[524..780] == Field(h.implementation) && p[780] == h.compatibility
  {
  }

  lemma HelloFields(h: Hello)
    requires ValidHello(h)
    ensures var bytes := Encode(HelloFrame(h));
      && |bytes| == HELLO_SIZE && bytes[16..24] == h.protocol && bytes[24..280] == Field(h.name)
      && bytes[280..536] == Field(h.version) && bytes[536..792] == Field(h.implementation) && bytes[792] == h.compatibility
  {
    HelloHeader(h);
    HelloLayout(h);
    var bytes := Encode(HelloFrame(h));
    assert forall i, j :: 0 <= i <= j <= 788 ==> bytes[12 + i..12 + j] == bytes[12..][i..j];
    assert bytes[792] == bytes[12..][780];
    assert bytes[16..24] == bytes[12..][4..12] && bytes[24..280] == bytes[12..][12..268];
    assert bytes[280..536] == bytes[12..][268..524] && bytes[536..792] == bytes[12..][524..780];
  }

  function HelloRead(h: Hello): HelloReading {
    HelloReading(6, 800, 0, h.protocol, Cut(h.name), Cut(h.version), Cut(h.implementation), h.compatibility)
  }

  lemma HelloViewed(h: Hello, prev: seq<Byte>)
    requires ValidHello(h) && |prev| == HELLO_SIZE
    ensures ReadHello(Viewed(prev, HelloFrame(h))) == HelloRead(h)
  {
    HelloHeader(h);
    HelloFields(h);
    var bytes := Encode(HelloFrame(h));
    assert bytes[..HELLO_SIZE] == bytes;
    CopyThenRead(h.name, FIELD);
    CopyThenRead(h.version, FIELD);
    CopyThenRead(h.implementation, FIELD);
  }

  /** The Hello that AcceptOnce sends. */
  function ServerHello(name: seq<Byte>, version: seq<Byte>, implementation: seq<Byte>): (h: Hello)
    ensures ValidHello(h)
  {
    Hello([0x01, 0x05, 0x02, 0x26, 0x20, 0x02, 0, 0], name, version, implementation, 1)
  }

  /**
    What a client reads of it: its three texts in their places, protocol version 0x02'20260205'01, as
    a little-endian uint64_t, and compatibility version 1.
   */
  lemma ServerHelloVersions(name: seq<Byte>, version: seq<Byte>, implementation: seq<Byte>)
    ensures var r := HelloRead(ServerHello(name, version, implementation));
      && r.messageType == 6 && r.name == Cut(name) && r.version == Cut(version) && r.implementation == Cut(implementation)
      && r.compatibility == 1
      && DecodeU32(r.protocol[..4]) + 0x1_0000_0000 * DecodeU32(r.protocol[4..]) == 0x02_20260205_01
  {
  }

  lemma {:induction false} ViewAt(first: seq<Byte>, visits: seq<Visit>, i: nat)
    requires ViewsFollow(first, visits) && i < |visits|
    ensures var prev := Left(first, visits[..i]);
      |prev| == HELLO_SIZE && ValidFrame(visits[i].frame) && visits[i].helloView == Viewed(prev, visits[i].frame)
    decreases |visits|
  {
    if i > 0 {
      ViewAt(visits[0].helloView, visits[1..], i - 1);
      assert visits[1..][..i - 1] == visits[1..i];
      assert i > 1 ==> visits[1..i][|visits[1..i]| - 1] == visits[..i][|visits[..i]| - 1];
    }
  }

  /**
    Hello across the wire: in a session whose frames come whole, the Hello sent as frame i yields the
    sender's three texts, each cut to 256 bytes and at its first NUL, whatever frames came before and
    whatever the buffer held.
   */
  lemma HelloRoundTrip(fs: seq<Frame>, i: nat, h: Hello, plan: seq<Reply>, buffer: seq<Byte>, refusal: int)
    requires (forall k :: 0 <= k < |fs| ==> ValidFrame(fs[k])) && i < |fs| && ValidHello(h) && fs[i] == HelloFrame(h)
    requires NoFailure(plan) && AllWhole(EncodeAll(fs), plan) && |buffer| >= INITIAL_BUFFER
    ensures var visits := Session(EncodeAll(fs), plan, buffer, refusal).visits;
      && |visits| == |fs| && |visits[i].helloView| == HELLO_SIZE
      && ReadHello(visits[i].helloView)
         == HelloReading(6, 800, 0, h.protocol, Cut(h.name), Cut(h.version), Cut(h.implementation), h.compatibility)
  {
    var visits := Session(EncodeAll(fs), plan, buffer, refusal).visits;
    SessionIsParse(EncodeAll(fs), plan, buffer, refusal);
    ParseRoundTrip(fs, refusal);
    assert |Frames(visits)| == |visits| && Frames(visits)[i] == visits[i].frame;
    ViewAt(buffer[..HELLO_SIZE], visits, i);
    HelloViewed(h, Left(buffer[..HELLO_SIZE], visits[..i]));
  }

  /** A client frame too short to be a Hello is looked at as one together with bytes of the view before it. */
  lemma ShortHelloShowsLeftovers(first: seq<Byte>, visits: seq<Visit>, i: nat, k: nat)
    requires ViewsFollow(first, visits) && i < |visits| && HEADER + |visits[i].frame.payload| <= k < HELLO_SIZE
    ensures |visits[i].helloView| == HELLO_SIZE == |Left(first, visits[..i])|
    ensures visits[i].helloView[k] == Left(first, visits[..i])[k]
  {
    ViewAt(first, visits, i);
  }
}
