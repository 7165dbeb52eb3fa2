/**
  The device messages of the two servers as memory cells, and their `SetDevice` bodies as the
  stores they make.  These are the two instances of the session protocol.
 */
module DeviceLayouts {
  import opened Basics
  import opened Binary32
  import opened SessionProtocol
  import opened SessionProofs
  import opened SessionWitnesses
  import opened FirstDevice
  import opened FixedBuffer
  import opened Fnv1a

  /** Stores of consecutive cells, in order. */
  function StoreAt(offset: nat, values: seq<int>): (p: seq<Write>)
    ensures |p| == |values|
  {
    seq(|values|, i requires 0 <= i < |values| => Write(offset + i, values[i]))
  }

  lemma {:induction false} PatchConcat(memory: seq<int>, p: seq<Write>, q: seq<Write>)
    ensures Patch(memory, p + q) == Patch(Patch(memory, p), q)
    decreases |q|
  {
    if |q| == 0 {
      assert p + q == p;
    } else {
      PatchConcat(memory, p, q[..|q| - 1]);
      assert (p + q)[..|p + q| - 1] == p + q[..|q| - 1];
    }
  }

  lemma {:induction false} PatchStoreAt(memory: seq<int>, offset: nat, values: seq<int>)
    requires offset + |values| <= |memory|
    ensures Patch(memory, StoreAt(offset, values)) == memory[..offset] + values + memory[offset + |values|..]
    decreases |values|
  {
    if |values| > 0 {
      var rest := values[..|values| - 1];
      PatchStoreAt(memory, offset, rest);
      assert StoreAt(offset, values)[..|rest|] == StoreAt(offset, rest);
    }
  }

  // ---- V1: mV1Device ---------------------------------------------------------------------------

  const V1_NAME: nat := 64

  /**
    Cells: messageType, size, vid, pid, isValid, maxX, maxY, maxPressure, then the 64 name units.
    The accept thread tests isValid; the pipe is always reset when AcceptOnce returns; pings are
    numbered whether or not a client is connected; there is no Hello.
   */
  const V1: Config := Config(8 + V1_NAME, 4, 1, 156, 0, 24, false, false, true)

  datatype V1Info = V1Info(vid: int, pid: int, maxX: int, maxY: int, maxPressure: int, name: seq<int>)

  /** The message `CreateMessage` returns: header set, everything else zero. */
  function V1Fresh(d: V1Info): (r: seq<int>) {
    [1, 156, d.vid, d.pid, 0, 0, 0, 0] + Zeros(V1_NAME)
  }

  /** The stores of V1Server::SetDevice: memberwise copy, four fields, the fill, the name copy. */
  function V1Program(d: V1Info): (p: seq<Write>) {
    StoreAt(0, V1Fresh(d))
      + StoreAt(4, [1, d.maxX, d.maxY, d.maxPressure])
      + StoreAt(8, Zeros(V1_NAME))
      + StoreAt(8, d.name[..Min(|d.name|, V1_NAME)])
  }

  /** The V1 message the device ought to become. */
  function V1Image(d: V1Info): (r: seq<int>) {
    V1Header(d) + Padded(d.name, V1_NAME)
  }

  function V1Header(d: V1Info): (r: seq<int>) {
    [1, 156, d.vid, d.pid, 1, d.maxX, d.maxY, d.maxPressure]
  }

  lemma V1FieldsStored(d: V1Info)
    ensures Patch(Patch(Blank(V1), StoreAt(0, V1Fresh(d))), StoreAt(4, [1, d.maxX, d.maxY, d.maxPressure]))
         == V1Header(d) + Zeros(V1_NAME)
  {
    PatchStoreAt(Blank(V1), 0, V1Fresh(d));
    assert Patch(Blank(V1), StoreAt(0, V1Fresh(d))) == V1Fresh(d);
    PatchStoreAt(V1Fresh(d), 4, [1, d.maxX, d.maxY, d.maxPressure]);
  }

  /** Filling a field with zeros and then copying a text over its start pads the text. */
  lemma FieldStored(header: seq<int>, text: seq<int>, n: nat)
    ensures var m := header + Zeros(n);
      Patch(Patch(m, StoreAt(|header|, Zeros(n))), StoreAt(|header|, text[..Min(|text|, n)])) == header + Padded(text, n)
  {
    var m, kept := header + Zeros(n), text[..Min(|text|, n)];
    PatchStoreAt(m, |header|, Zeros(n));
    assert Patch(m, StoreAt(|header|, Zeros(n))) == m;
    PatchStoreAt(m, |header|, kept);
  }

  lemma V1Stored(d: V1Info)
    ensures Complete(V1, V1Program(d)) == V1Image(d)
  {
    var p0, p1, p2 := StoreAt(0, V1Fresh(d)), StoreAt(4, [1, d.maxX, d.maxY, d.maxPressure]), StoreAt(8, Zeros(V1_NAME));
    PatchConcat(Blank(V1), p0 + p1 + p2, StoreAt(8, d.name[..Min(|d.name|, V1_NAME)]));
    PatchConcat(Blank(V1), p0 + p1, p2);
    PatchConcat(Blank(V1), p0, p1);
    V1FieldsStored(d);
    FieldStored(V1Header(d), d.name, V1_NAME);
  }

  lemma V1Valid(d: V1Info)
    ensures ValidConfig(V1) && Fits(V1.helloSize) && ValidProgram(V1, V1Program(d))
  {
    var p := V1Program(d);
    forall c: nat | c < V1.width ensures WritesCell(p, c) {
      assert p[c].cell == c;
    }
    forall i | 0 <= i < |p| && p[i].cell == V1.readyCell && p[i].value != 0 ensures WritesCell(p[..i], V1.sizeCell) {
      assert p[1].cell == V1.sizeCell && p[4].value == 0;
    }
    V1Stored(d);
  }

  /**
    V1, every schedule: with SetDevice idle and the handshake done, the last DeviceInfo on the
    installed pipe is the complete message for the latest device, never a half-written one.
   */
  lemma V1NoLostDevice(schedule: seq<Action>, d: V1Info, session: nat)
    requires var s := Run(V1, schedule);
      s.latest == Some(V1Program(d)) && s.shared.handle == Some(session) && HandshakeDone(s) && !SettingDevice(s)
    ensures var s := Run(V1, schedule);
      session < |s.shared.streams| && LastDevice(s.shared.streams[session]) == Some(V1Image(d))
  {
    NoLostDevice(V1, schedule, V1Program(d), session);
    V1Stored(d);
  }

  /** After 73 stores the header is written and isValid is set; the limits and the name are still zero. */
  lemma V1FirstReady(d: V1Info)
    ensures Image(V1, V1Program(d), 73) == V1Fresh(d)[4 := 1]
  {
    var p := V1Program(d);
    assert p[..73] == StoreAt(0, V1Fresh(d)) + [Write(4, 1)];
    PatchConcat(Blank(V1), StoreAt(0, V1Fresh(d)), [Write(4, 1)]);
    PatchStoreAt(Blank(V1), 0, V1Fresh(d));
    assert Patch(Blank(V1), StoreAt(0, V1Fresh(d))) == V1Fresh(d);
  }

  lemma {:induction false} ZeroStays(memory: seq<int>, program: seq<Write>, cell: nat)
    requires cell < |memory| && memory[cell] == 0
    requires forall i :: 0 <= i < |program| && program[i].cell == cell ==> program[i].value == 0
    ensures Patch(memory, program)[cell] == 0
    decreases |program|
  {
    if |program| > 0 {
      ZeroStays(memory, program[..|program| - 1], cell);
    }
  }

  lemma V1ReadyFrom(d: V1Info, n: nat)
    ensures ReadyBy(V1, V1Program(d), n) <==> n >= 73
  {
    var p := V1Program(d);
    if n >= 73 {
      V1FirstReady(d);
      assert Image(V1, p, 73)[V1.readyCell] == 1;
    } else {
      forall m: nat | m <= n ensures Image(V1, p, m)[V1.readyCell] == 0 {
        assert forall i :: 0 <= i < 72 ==> p[i] == Write(i, V1Fresh(d)[i]);
        ZeroStays(Blank(V1), p[..m], V1.readyCell);
      }
    }
  }

  /**
    V1, every schedule with one SetDevice: the devices that reach a client are exactly the memory
    images from the store of isValid on.
   */
  lemma V1ReceivedIff(d: V1Info, cells: seq<int>)
    ensures ValidConfig(V1)
    ensures CanReceive(V1, V1Program(d), cells)
       <==> exists k: nat :: 73 <= k <= |V1Program(d)| && cells == Image(V1, V1Program(d), k)
  {
    var p := V1Program(d);
    V1Valid(d);
    ReceivedIff(V1, p, cells);
    forall k: nat ensures ReadyBy(V1, p, k) <==> k >= 73 {
      V1ReadyFrom(d, k);
    }
  }

  /** So a V1 client can be sent a device marked valid whose limits and name are all zero. */
  lemma V1TornDevice(d: V1Info)
    ensures ValidConfig(V1) && CanReceive(V1, V1Program(d), [1, 156, d.vid, d.pid, 1, 0, 0, 0] + Zeros(64))
  {
    V1FirstReady(d);
    assert V1Fresh(d)[4 := 1] == [1, 156, d.vid, d.pid, 1, 0, 0, 0] + Zeros(64);
    V1ReceivedIff(d, V1Fresh(d)[4 := 1]);
  }

  /** Were SetDevice called again, a client could be sent the new header with every other field zero. */
  lemma V1HalfWrittenDevice(first: V1Info, second: V1Info) returns (schedule: seq<Action>)
    ensures Run(V1, schedule).shared.streams
         == [[Frame(AcceptThread, Device([1, 156, second.vid, second.pid, 0, 0, 0, 0] + Zeros(64)))]]
  {
    V1Valid(first);
    V1Valid(second);
    var n := 8 + V1_NAME;
    assert V1Program(second)[..0] == [];
    schedule := TornDeviceIsSent(V1, Some(V1Program(first)), V1Program(second), 0, n);
    assert V1Program(second)[..n] == StoreAt(0, V1Fresh(second));
    PatchStoreAt(Complete(V1, V1Program(first)), 0, V1Fresh(second));
    assert Patch(Complete(V1, V1Program(first)), V1Program(second)[..n]) == V1Fresh(second);
    assert Welcome(V1) + [Frame(AcceptThread, Device(V1Fresh(second)))] == [Frame(AcceptThread, Device(V1Fresh(second)))];
  }

  /** The name in the stored message is NUL-terminated exactly when it has fewer than 64 units or brings its own NUL. */
  lemma V1NameTerminated(d: V1Info)
    ensures 0 in Complete(V1, V1Program(d))[8..] <==> |d.name| < V1_NAME || 0 in d.name[..V1_NAME]
  {
    V1Stored(d);
    FieldTerminated(d.name, V1_NAME);
  }

  /** What V1Server::SetDevice makes of a V2 device: the IDs come from hashing the persistent ID. */
  function V1InfoOf(persistentId: seq<Byte>, maxX: int, maxY: int, maxPressure: int, name: seq<int>): (d: V1Info) {
    V1Info(Vid(Hash(persistentId)), Pid(Hash(persistentId)), maxX, maxY, maxPressure, name)
  }

  /** Devices whose persistent IDs differ in one byte never look alike to a V1 client, even if all else is equal. */
  lemma V1DevicesTellApart(prefix: seq<Byte>, b: Byte, c: Byte, suffix: seq<Byte>, x: int, y: int, p: int, name: seq<int>)
    requires b != c
    ensures Complete(V1, V1Program(V1InfoOf(prefix + [b] + suffix, x, y, p, name)))
         != Complete(V1, V1Program(V1InfoOf(prefix + [c] + suffix, x, y, p, name)))
  {
    var d, e := V1InfoOf(prefix + [b] + suffix, x, y, p, name), V1InfoOf(prefix + [c] + suffix, x, y, p, name);
    V1Stored(d);
    V1Stored(e);
    OneByteSeparates(prefix, b, c, suffix);
    assert V1Image(d)[2] == d.vid && V1Image(d)[3] == d.pid;
  }

  // ---- V2: mDevice -----------------------------------------------------------------------------

  /**
    Cells: the optional's engaged flag, messageType, size, nonPersistentTabletId, maxX, maxY,
    maxPressure, 256 persistent-ID bytes, 256 name bytes.
   */
  const V2_FIELDS: nat := 6 + 256 + 256
  const V2: Config := Config(1 + V2_FIELDS, 0, 2, 536, 800, 24, true, true, false)

  /** A DeviceInfo as its constructor makes it: the right type and size, then what the tablet filled in. */
  datatype V2Info = V2Info(id: int, rest: seq<int>)

  predicate ValidInfo(d: V2Info) {
    |d.rest| == V2_FIELDS - 3
  }

  function V2Message(d: V2Info): (r: seq<int>) {
    [1, 536, d.id] + d.rest
  }

  /** The stores of V2Server::SetDevice: copy the message, engage the optional, InitHeader. */
  function V2Program(d: V2Info): (p: seq<Write>) {
    StoreAt(1, V2Message(d)) + StoreAt(0, [1]) + StoreAt(1, [1, 536, d.id])
  }

  /** The message copied and the optional engaged. */
  lemma V2Engaged(d: V2Info)
    requires ValidInfo(d)
    ensures Patch(Blank(V2), StoreAt(1, V2Message(d)) + StoreAt(0, [1])) == [1] + V2Message(d)
  {
    var p0, p1, m0 := StoreAt(1, V2Message(d)), StoreAt(0, [1]), [0] + V2Message(d);
    PatchConcat(Blank(V2), p0, p1);
    PatchStoreAt(Blank(V2), 1, V2Message(d));
    assert Patch(Blank(V2), p0) == m0;
    PatchStoreAt(m0, 0, [1]);
  }

  lemma V2Stored(d: V2Info)
    requires ValidInfo(d)
    ensures Complete(V2, V2Program(d)) == [1] + V2Message(d)
  {
    var p01, p2, m1 := StoreAt(1, V2Message(d)) + StoreAt(0, [1]), StoreAt(1, [1, 536, d.id]), [1] + V2Message(d);
    PatchConcat(Blank(V2), p01, p2);
    V2Engaged(d);
    PatchStoreAt(m1, 1, [1, 536, d.id]);
  }

  lemma V2Valid(d: V2Info)
    requires ValidInfo(d)
    ensures ValidConfig(V2) && Fits(V2.helloSize) && ValidProgram(V2, V2Program(d))
  {
    var p := V2Program(d);
    assert p[V2_FIELDS].cell == 0;
    forall c: nat | c < V2.width ensures WritesCell(p, c) {
      assert c > 0 ==> p[c - 1].cell == c;
    }
    forall i | 0 <= i < |p| && p[i].cell == V2.readyCell && p[i].value != 0 ensures WritesCell(p[..i], V2.sizeCell) {
      assert p[..i][1].cell == V2.sizeCell;
    }
    V2Stored(d);
  }

  /** V2, every schedule: the same, for the DeviceInfo of the latest SetDevice. */
  lemma V2NoLostDevice(schedule: seq<Action>, d: V2Info, session: nat)
    requires ValidInfo(d)
    requires var s := Run(V2, schedule);
      s.latest == Some(V2Program(d)) && s.shared.handle == Some(session) && HandshakeDone(s) && !SettingDevice(s)
    ensures var s := Run(V2, schedule);
      session < |s.shared.streams| && LastDevice(s.shared.streams[session]) == Some([1] + V2Message(d))
  {
    NoLostDevice(V2, schedule, V2Program(d), session);
    V2Stored(d);
  }

  /** The optional is engaged by store 519, when the message is already complete; the rest repeats it. */
  lemma V2FromReady(d: V2Info, k: nat)
    requires ValidInfo(d) && V2_FIELDS < k <= |V2Program(d)|
    ensures Image(V2, V2Program(d), k) == [1] + V2Message(d)
  {
    var p, header, j := V2Program(d), [1, 536, d.id], k - V2_FIELDS - 1;
    var p0, p1, m1 := StoreAt(1, V2Message(d)), StoreAt(0, [1]), [1] + V2Message(d);
    assert p[..k] == (p0 + p1) + StoreAt(1, header[..j]);
    PatchConcat(Blank(V2), p0 + p1, StoreAt(1, header[..j]));
    V2Engaged(d);
    PatchStoreAt(m1, 1, header[..j]);
  }

  lemma V2ReadyFrom(d: V2Info, n: nat)
    requires ValidInfo(d)
    ensures ReadyBy(V2, V2Program(d), n) <==> n > V2_FIELDS
  {
    var p := V2Program(d);
    if n > V2_FIELDS {
      V2FromReady(d, V2_FIELDS + 1);
      assert Image(V2, p, V2_FIELDS + 1)[V2.readyCell] == 1;
    } else {
      forall m: nat | m <= n ensures Image(V2, p, m)[V2.readyCell] == 0 {
        ZeroStays(Blank(V2), p[..m], V2.readyCell);
      }
    }
  }

  /** V2, every schedule with one SetDevice: no half-written device reaches a client, only the complete one. */
  lemma V2ReceivedIff(d: V2Info, cells: seq<int>)
    requires ValidInfo(d)
    ensures ValidConfig(V2) && (CanReceive(V2, V2Program(d), cells) <==> cells == [1] + V2Message(d))
  {
    var p := V2Program(d);
    V2Valid(d);
    ReceivedIff(V2, p, cells);
    if Sendable(V2, p, cells, |p|) {
      var k: nat :| k <= |p| && ReadyBy(V2, p, k) && cells == Image(V2, p, k);
      V2ReadyFrom(d, k);
      V2FromReady(d, k);
    }
    V2ReadyFrom(d, |p|);
    V2FromReady(d, |p|);
  }

  /** Neither server ever throws the size mismatch for Hello, Ping or DeviceInfo. */
  lemma NoServerThrows(schedule: seq<Action>)
    ensures !AcceptThrows(V1, schedule) && !PingThrows(V1, schedule)
    ensures !AcceptThrows(V2, schedule) && !PingThrows(V2, schedule)
  {
    SizeCheckIff(V1);
    SizeCheckIff(V2);
  }

  // ---- From the driver to the client ---------------------------------------------------------------

  /** The persistent ID made of the driver's two answers. */
  function DriverId(pnpId: Answer, interfaceId: Answer): (r: seq<int>)
    ensures |r| == 256
  {
    PersistentIdField(InfoString(pnpId), InfoString(interfaceId))
  }

  /** The DeviceInfo that ConnectToTablet fills in from the driver's answers. */
  function TabletInfo(extentX: int, extentY: int, pressureMax: int, name: Answer, pnpId: Answer, interfaceId: Answer): (d: V2Info)
    ensures ValidInfo(d)
  {
    V2Info(0, [Round(extentX), Round(extentY), pressureMax % 0x1_0000_0000]
              + DriverId(pnpId, interfaceId) + Padded(InfoString(name), 256))
  }

  /** What a V2 client reads out of a DeviceInfo: header, limits, persistent ID, name. */
  datatype Reading = Reading(
    messageType: int, size: int, tabletId: int, maxX: int, maxY: int, maxPressure: int, persistentId: seq<int>, name: seq<int>)

  function Read(cells: seq<int>): (r: Reading)
    requires |cells| == V2.width
  {
    Reading(cells[1], cells[2], cells[3], cells[4], cells[5], cells[6], Text(cells[7..263]), Text(cells[263..519]))
  }

  lemma FieldsApart(head: seq<int>, id: seq<int>, name: seq<int>)
    requires |head| == 7 && |id| == 256 && |name| == 256
    ensures var cells := head + id + name;
      |cells| == V2.width && cells[..7] == head && cells[7..263] == id && cells[263..519] == name
  {
  }

  lemma InfoCells(maxX: int, maxY: int, maxPressure: int, id: seq<int>, name: seq<int>)
    requires |id| == 256 && |name| == 256
    ensures var cells := [1] + V2Message(V2Info(0, [maxX, maxY, maxPressure] + id + name));
      && |cells| == V2.width && cells[1] == 1 && cells[2] == 536 && cells[3] == 0
      && cells[4] == maxX && cells[5] == maxY && cells[6] == maxPressure
      && cells[7..263] == id && cells[263..519] == name
  {
    var head := [1, 1, 536, 0, maxX, maxY, maxPressure];
    assert [1] + V2Message(V2Info(0, [maxX, maxY, maxPressure] + id + name)) == head + id + name;
    FieldsApart(head, id, name);
  }

  lemma TabletRead(x: int, y: int, p: int, name: Answer, pnpId: Answer, interfaceId: Answer, nm: seq<int>, pn: seq<int>, ifc: seq<int>)
    requires Trims(name, nm) && Trims(pnpId, pn) && Trims(interfaceId, ifc)
    ensures var cells := [1] + V2Message(TabletInfo(x, y, p, name, pnpId, interfaceId));
      && |cells| == V2.width
      && Read(cells) == Reading(1, 536, 0, Round(x), Round(y), p % 0x1_0000_0000, ExpectedId(pn, ifc), Text(nm[..Min(|nm|, 256)]))
  {
    TrimsIff(name, nm);
    TrimsIff(pnpId, pn);
    TrimsIff(interfaceId, ifc);
    InfoCells(Round(x), Round(y), p % 0x1_0000_0000, DriverId(pnpId, interfaceId), Padded(nm, 256));
    IdReadsBack(pn, ifc);
    CopyThenRead(nm, 256);
  }

  /**
    Whatever the threads do: once the tablet's device has been set and SetDevice has returned, the
    last DeviceInfo on a finished handshake reads as the driver described the tablet.  `nm`, `pn` and
    `ifc` are the driver's three answers as `Trims` cuts them.
   */
  lemma ClientReadsTablet(schedule: seq<Action>, session: nat, x: int, y: int, p: int,
                          name: Answer, pnpId: Answer, interfaceId: Answer, nm: seq<int>, pn: seq<int>, ifc: seq<int>)
    requires Trims(name, nm) && Trims(pnpId, pn) && Trims(interfaceId, ifc)
    requires var s := Run(V2, schedule);
      && s.latest == Some(V2Program(TabletInfo(x, y, p, name, pnpId, interfaceId)))
      && s.shared.handle == Some(session) && HandshakeDone(s) && !SettingDevice(s)
    ensures var s := Run(V2, schedule);
      && session < |s.shared.streams|
      && var last := LastDevice(s.shared.streams[session]);
         last.Some? && |last.value| == V2.width
         && Read(last.value) == Reading(1, 536, 0, Round(x), Round(y), p % 0x1_0000_0000,
                                        ExpectedId(pn, ifc), Text(nm[..Min(|nm|, 256)]))
  {
    V2NoLostDevice(schedule, TabletInfo(x, y, p, name, pnpId, interfaceId), session);
    TabletRead(x, y, p, name, pnpId, interfaceId, nm, pn, ifc);
  }

  /** `std::bit_cast<uint8_t>` of signed characters. */
  function Unsigned(text: seq<int>): (r: seq<Byte>)
    ensures |r| == |text|
  {
    seq(|text|, i requires 0 <= i < |text| => text[i] % 256)
  }

  /** What V1Server::SetDevice makes of that DeviceInfo; `wide` is the name after `from_utf8`. */
  function V1TabletInfo(extentX: int, extentY: int, pressureMax: int, wide: seq<int>, pnpId: Answer, interfaceId: Answer): (d: V1Info) {
    V1InfoOf(Unsigned(Text(DriverId(pnpId, interfaceId))), Round(extentX), Round(extentY), pressureMax % 0x1_0000_0000, wide)
  }

  /** What a V1 client reads out of a DeviceInfo. */
  datatype V1Reading = V1Reading(
    messageType: int, size: int, vid: int, pid: int, valid: int, maxX: int, maxY: int, maxPressure: int, name: seq<int>)

  function ReadV1(cells: seq<int>): (r: V1Reading)
    requires |cells| == V1.width
  {
    V1Reading(cells[0], cells[1], cells[2], cells[3], cells[4], cells[5], cells[6], cells[7], Text(cells[8..]))
  }

  lemma V1ImageReads(d: V1Info)
    ensures |V1Image(d)| == V1.width
    ensures ReadV1(V1Image(d))
         == V1Reading(1, 156, d.vid, d.pid, 1, d.maxX, d.maxY, d.maxPressure, Text(d.name[..Min(|d.name|, 64)]))
  {
    CopyThenRead(d.name, V1_NAME);
    assert V1Image(d)[8..] == Padded(d.name, V1_NAME);
  }

  /** The bytes of signed characters: negative ones wrap. */
  ghost predicate AsBytes(text: seq<int>, bytes: seq<Byte>) {
    |bytes| == |text| && forall i :: 0 <= i < |text| ==> bytes[i] == if text[i] < 0 then text[i] + 256 else text[i]
  }

  lemma UnsignedIsBytes(text: seq<int>, bytes: seq<Byte>)
    requires AsBytes(text, bytes)
    ensures Unsigned(text) == bytes
  {
  }

  lemma DriverIdBytes(pnpId: Answer, interfaceId: Answer, pn: seq<int>, ifc: seq<int>, bytes: seq<Byte>)
    requires Trims(pnpId, pn) && Trims(interfaceId, ifc) && AsBytes(ExpectedId(pn, ifc), bytes)
    ensures Unsigned(Text(DriverId(pnpId, interfaceId))) == bytes
  {
    TrimsIff(pnpId, pn);
    TrimsIff(interfaceId, ifc);
    IdReadsBack(pn, ifc);
    UnsignedIsBytes(ExpectedId(pn, ifc), bytes);
  }

  lemma V1TabletRead(x: int, y: int, p: int, wide: seq<int>, pnpId: Answer, interfaceId: Answer, pn: seq<int>, ifc: seq<int>, bytes: seq<Byte>)
    requires Trims(pnpId, pn) && Trims(interfaceId, ifc) && AsBytes(ExpectedId(pn, ifc), bytes)
    ensures var cells, hash := V1Image(V1TabletInfo(x, y, p, wide, pnpId, interfaceId)), Hash(bytes);
      && |cells| == V1.width
      && ReadV1(cells) == V1Reading(1, 156, hash % 0x1_0000, hash / 0x1_0000, 1, Round(x), Round(y), p % 0x1_0000_0000,
                                    Text(wide[..Min(|wide|, 64)]))
  {
    DriverIdBytes(pnpId, interfaceId, pn, ifc, bytes);
    Halves(Hash(bytes));
    V1ImageReads(V1InfoOf(bytes, Round(x), Round(y), p % 0x1_0000_0000, wide));
  }

  /**
    The V1 counterpart: vendor and product ID are the low and the high half of the hash of the
    persistent ID's bytes, the limits the driver's.
   */
  lemma V1ClientReadsTablet(schedule: seq<Action>, session: nat, x: int, y: int, p: int, wide: seq<int>,
                            pnpId: Answer, interfaceId: Answer, pn: seq<int>, ifc: seq<int>, bytes: seq<Byte>)
    requires Trims(pnpId, pn) && Trims(interfaceId, ifc) && AsBytes(ExpectedId(pn, ifc), bytes)
    requires var s := Run(V1, schedule);
      && s.latest == Some(V1Program(V1TabletInfo(x, y, p, wide, pnpId, interfaceId)))
      && s.shared.handle == Some(session) && HandshakeDone(s) && !SettingDevice(s)
    ensures var s, hash := Run(V1, schedule), Hash(bytes);
      && session < |s.shared.streams|
      && var last := LastDevice(s.shared.streams[session]);
         last.Some? && |last.value| == V1.width
         && ReadV1(last.value) == V1Reading(1, 156, hash % 0x1_0000, hash / 0x1_0000, 1, Round(x), Round(y), p % 0x1_0000_0000,
                                            Text(wide[..Min(|wide|, 64)]))
  {
    V1NoLostDevice(schedule, V1TabletInfo(x, y, p, wide, pnpId, interfaceId), session);
    V1TabletRead(x, y, p, wide, pnpId, interfaceId, pn, ifc, bytes);
  }
}
