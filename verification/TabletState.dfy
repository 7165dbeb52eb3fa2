/** The OTD-IPC v2 tablet state and its meaning as a history of driver messages. */
module TabletState {
  import opened Basics
  import opened Bits

  // ---- State.hpp ---------------------------------------------------------------------------

  type ValidMask = nat

  const POSITION_X: ValidMask := 1
  const POSITION_Y: ValidMask := 2
  const PRESSURE: ValidMask := 4
  const PEN_BUTTONS: ValidMask := 8
  const AUX_BUTTONS: ValidMask := 16
  const PEN_IS_NEAR: ValidMask := 32
  const HOVER_DISTANCE: ValidMask := 64
  const POSITION: ValidMask := 3   // PositionX | PositionY

  /** Floats are represented by the integers they stand for. */
  datatype State = State(
    validBits: ValidMask, x: int, y: int, pressure: int,
    penButtons: nat, auxButtons: nat, hoverDistance: int, penIsNearSurface: bool)
  {
    predicate HasData(mask: ValidMask) {
      And(mask, validBits) == mask
    }
  }

  const EMPTY: State := State(0, 0, 0, 0, 0, 0, 0, false)

  /** HasData, for each mask the adapter uses, in terms of the single validity bits. */
  lemma HasDataBits(s: State)
    ensures s.HasData(POSITION_X) == Bit(s.validBits, 0) && s.HasData(POSITION_Y) == Bit(s.validBits, 1)
    ensures s.HasData(POSITION) == (Bit(s.validBits, 0) && Bit(s.validBits, 1))
    ensures s.HasData(PRESSURE) == Bit(s.validBits, 2) && s.HasData(PEN_BUTTONS) == Bit(s.validBits, 3)
    ensures s.HasData(AUX_BUTTONS) == Bit(s.validBits, 4) && s.HasData(PEN_IS_NEAR) == Bit(s.validBits, 5)
    ensures s.HasData(HOVER_DISTANCE) == Bit(s.validBits, 6)
  {
    SingleBit(s, 0);
    SingleBit(s, 1);
    SingleBit(s, 2);
    SingleBit(s, 3);
    SingleBit(s, 4);
    SingleBit(s, 5);
    SingleBit(s, 6);
  }

  lemma SmallPowers()
    ensures Pow2(0) == 1 && Pow2(1) == 2 && Pow2(2) == 4 && Pow2(3) == 8
    ensures Pow2(4) == 16 && Pow2(5) == 32 && Pow2(6) == 64
    ensures Pow2(7) == 0x80 && Pow2(8) == 0x100 && Pow2(9) == 0x200 && Pow2(10) == 0x400
  {
  }

  lemma SingleBit(s: State, k: nat)
    ensures s.HasData(Pow2(k)) <==> Bit(s.validBits, k)
  {
    MaskTest(Pow2(k), s.validBits);
    forall j: nat ensures Bit(Pow2(k), j) <==> j == k {
      Pow2Bit(k, j);
    }
  }

  // ---- Driver messages -----------------------------------------------------------------------

  const PK_BUTTONS: nat := 0x0040
  const PK_X: nat := 0x0080
  const PK_Y: nat := 0x0100
  const PK_Z: nat := 0x0200
  const PK_NORMAL_PRESSURE: nat := 0x0400

  datatype Packet = Packet(changed: nat, x: int, y: int, z: int, pressure: int, buttons: nat)
  {
    predicate Changed(field: nat) {
      And(changed, field) != 0
    }
  }

  /** The reported fields by the bits of pkChanged, as the WinTab headers number them. */
  lemma ChangedBits(p: Packet)
    ensures p.Changed(PK_BUTTONS) <==> Bit(p.changed, 6)
    ensures p.Changed(PK_X) <==> Bit(p.changed, 7)
    ensures p.Changed(PK_Y) <==> Bit(p.changed, 8)
    ensures p.Changed(PK_Z) <==> Bit(p.changed, 9)
    ensures p.Changed(PK_NORMAL_PRESSURE) <==> Bit(p.changed, 10)
  {
    SmallPowers();
    AndPow2(p.changed, 6);
    AndPow2(p.changed, 7);
    AndPow2(p.changed, 8);
    AndPow2(p.changed, 9);
    AndPow2(p.changed, 10);
  }

  datatype ExpKey = ExpKey(control: nat, state: int)

  /** `None` is a WTPacket call that failed. */
  datatype Message =
    | Proximity(inContext: int)               // the low word of lParam
    | CtxOverlap(ours: bool, onTop: bool)
    | PacketMessage(packet: Option<Packet>)
    | PacketExt(key: Option<ExpKey>)
    | Other

  /** What the driver must supply: a nonnegative distance, and a shift count a uint16_t shift allows. */
  predicate ValidMessage(m: Message) {
    && (m.PacketMessage? && m.packet.Some? && Bit(m.packet.value.changed, 9) ==> m.packet.value.z >= 0)
    && (m.PacketExt? && m.key.Some? ==> m.key.value.control < 32)
  }

  /** ProcessMessageImpl's answer. */
  predicate Accepted(m: Message) {
    match m
    case Proximity(_) => true
    case CtxOverlap(_, _) => true
    case PacketMessage(p) => p.Some?
    case PacketExt(k) => k.Some?
    case Other => false
  }

  // ---- Each field's reports ------------------------------------------------------------------

  /** A successful packet with this bit of pkChanged set. */
  function ReportPacket(m: Message, bit: nat): Option<Packet> {
    if m.PacketMessage? && m.packet.Some? && Bit(m.packet.value.changed, bit) then Some(m.packet.value) else None
  }

  function ReportNear(m: Message): Option<bool> {
    if m.Proximity? then Some(m.inContext != 0) else None
  }

  function ReportKey(m: Message, control: nat): Option<bool> {
    if m.PacketExt? && m.key.Some? && m.key.value.control == control then Some(m.key.value.state != 0) else None
  }

  /** The last successful packet with this bit of pkChanged set. */
  function LastPacket(h: seq<Message>, bit: nat): (r: Option<Packet>)
    decreases |h|
  {
    if |h| == 0 then None
    else if ReportPacket(h[|h| - 1], bit).Some? then ReportPacket(h[|h| - 1], bit)
    else LastPacket(h[..|h| - 1], bit)
  }

  function LastNear(h: seq<Message>): (r: Option<bool>)
    decreases |h|
  {
    if |h| == 0 then None
    else if ReportNear(h[|h| - 1]).Some? then ReportNear(h[|h| - 1])
    else LastNear(h[..|h| - 1])
  }

  /** Whether `control` was down in the last successful extension packet for it. */
  function LastKey(h: seq<Message>, control: nat): (r: Option<bool>)
    decreases |h|
  {
    if |h| == 0 then None
    else if ReportKey(h[|h| - 1], control).Some? then ReportKey(h[|h| - 1], control)
    else LastKey(h[..|h| - 1], control)
  }

  predicate AnyKey(h: seq<Message>) {
    exists i :: 0 <= i < |h| && h[i].PacketExt? && h[i].key.Some?
  }

  // ---- Button masks ----------------------------------------------------------------------------

  /** `1ui16 << control`: controls 16 to 31 shift out of the 16 bits. */
  function KeyMask(control: nat): nat {
    Pow2(control) % 0x1_0000
  }

  function PressKey(buttons: nat, key: ExpKey): nat {
    if key.state != 0 then Or(buttons, KeyMask(key.control)) else AndNot(buttons, KeyMask(key.control))
  }

  lemma KeyMaskHigh(control: nat)
    requires control >= 16
    ensures KeyMask(control) == 0
  {
    Pow2Values();
    Pow2Sum(16, control - 16);
    MultipleOfWord(Pow2(control - 16));
  }

  lemma KeyMaskBit(control: nat, k: nat)
    ensures Bit(KeyMask(control), k) <==> k == control && k < 16
  {
    if control < 16 {
      Pow2Values();
      Pow2Monotone(control, 16);
      Pow2Bit(control, k);
    } else {
      KeyMaskHigh(control);
      ZeroBit(k);
    }
  }

  lemma PressKeyBit(buttons: nat, key: ExpKey, k: nat)
    ensures Bit(PressKey(buttons, key), k)
       <==> if k == key.control && k < 16 then key.state != 0 else Bit(buttons, k)
  {
    KeyMaskBit(key.control, k);
    OrBit(buttons, KeyMask(key.control), k);
    AndNotBit(buttons, KeyMask(key.control), k);
  }
}
