/** The event machine: ProcessMessage folds driver messages into the tablet state. */
module WintabTablet {
  import opened Basics
  import opened Binary32
  import opened Bits
  import opened TabletState

  // ---- One message -----------------------------------------------------------------------------

  function Mark(bits: ValidMask, changed: bool, mask: ValidMask): ValidMask {
    if changed then Or(bits, mask) else bits
  }

  function PacketBits(bits: ValidMask, p: Packet): ValidMask {
    var b := Mark(bits, p.Changed(PK_X), POSITION_X);
    var b := Mark(b, p.Changed(PK_Y), POSITION_Y);
    var b := Mark(b, p.Changed(PK_Z), HOVER_DISTANCE);
    var b := Mark(b, p.Changed(PK_NORMAL_PRESSURE), PRESSURE);
    Mark(b, p.Changed(PK_BUTTONS), PEN_BUTTONS)
  }

  /** The effect of a successful WT_PACKET.  The distance is a float truncated to uint32_t; it is integral. */
  function StepPacket(extent: int, s: State, p: Packet): State {
    s.(x := if p.Changed(PK_X) then Round(p.x) else s.x,
       y := if p.Changed(PK_Y) then FlipY(extent, p.y) else s.y,
       hoverDistance := if p.Changed(PK_Z) then Round(p.z) else s.hoverDistance,
       pressure := if p.Changed(PK_NORMAL_PRESSURE) then p.pressure else s.pressure,
       penButtons := if p.Changed(PK_BUTTONS) then p.buttons else s.penButtons,
       validBits := PacketBits(s.validBits, p))
  }

  function Step(extent: int, s: State, m: Message): State {
    match m
    case Proximity(low) => s.(penIsNearSurface := low != 0, validBits := Or(s.validBits, PEN_IS_NEAR))
    case PacketMessage(Some(p)) => StepPacket(extent, s, p)
    case PacketExt(Some(key)) => s.(auxButtons := PressKey(s.auxButtons, key), validBits := Or(s.validBits, AUX_BUTTONS))
    case _ => s
  }

  /** mState after a run of messages. */
  function Fold(extent: int, h: seq<Message>): State
    decreases |h|
  {
    if |h| == 0 then EMPTY else Step(extent, Fold(extent, h[..|h| - 1]), h[|h| - 1])
  }

  lemma FoldThen(extent: int, h: seq<Message>, m: Message)
    ensures Fold(extent, h + [m]) == Step(extent, Fold(extent, h), m)
  {
  }

  /** Which messages are answered with true, kind by kind. */
  lemma AnsweredKinds(m: Message)
    ensures Accepted(m) <==>
      m.Proximity? || m.CtxOverlap? || (m.PacketMessage? && m.packet.Some?) || (m.PacketExt? && m.key.Some?)
  {
  }

  // ---- Last report wins ------------------------------------------------------------------------

  function ReportedX(h: seq<Message>): Option<int> {
    match LastPacket(h, 7) case None => None case Some(p) => Some(Round(p.x))
  }

  function ReportedY(extent: int, h: seq<Message>): Option<int> {
    match LastPacket(h, 8) case None => None case Some(p) => Some(FlipY(extent, p.y))
  }

  function ReportedHover(h: seq<Message>): Option<int> {
    match LastPacket(h, 9) case None => None case Some(p) => Some(Round(p.z))
  }

  function ReportedPressure(h: seq<Message>): Option<int> {
    match LastPacket(h, 10) case None => None case Some(p) => Some(p.pressure)
  }

  function ReportedButtons(h: seq<Message>): Option<nat> {
    match LastPacket(h, 6) case None => None case Some(p) => Some(p.buttons)
  }

  function ValueOr<T>(o: Option<T>, default: T): T {
    match o case None => default case Some(v) => v
  }

  /** Every value is the last report; a field that was never reported still has its default. */
  ghost predicate ValuesAgree(extent: int, s: State, h: seq<Message>) {
    && s.x == ValueOr(ReportedX(h), 0)
    && s.y == ValueOr(ReportedY(extent, h), 0)
    && s.hoverDistance == ValueOr(ReportedHover(h), 0)
    && s.pressure == ValueOr(ReportedPressure(h), 0)
    && s.penButtons == ValueOr(ReportedButtons(h), 0)
    && s.penIsNearSurface == ValueOr(LastNear(h), false)
  }

  /** Every validity bit is set exactly when its field was ever reported. */
  ghost predicate ValidityAgrees(extent: int, s: State, h: seq<Message>) {
    && (s.HasData(POSITION_X) <==> ReportedX(h).Some?)
    && (s.HasData(POSITION_Y) <==> ReportedY(extent, h).Some?)
    && (s.HasData(POSITION) <==> ReportedX(h).Some? && ReportedY(extent, h).Some?)
    && (s.HasData(HOVER_DISTANCE) <==> ReportedHover(h).Some?)
    && (s.HasData(PRESSURE) <==> ReportedPressure(h).Some?)
    && (s.HasData(PEN_BUTTONS) <==> ReportedButtons(h).Some?)
    && (s.HasData(PEN_IS_NEAR) <==> LastNear(h).Some?)
    && (s.HasData(AUX_BUTTONS) <==> AnyKey(h))
  }

  /** Whether the field behind validity bit k was ever reported. */
  ghost predicate BitReported(h: seq<Message>, k: nat) {
    match k
    case 0 => LastPacket(h, 7).Some?
    case 1 => LastPacket(h, 8).Some?
    case 2 => LastPacket(h, 10).Some?
    case 3 => LastPacket(h, 6).Some?
    case 4 => AnyKey(h)
    case 5 => LastNear(h).Some?
    case 6 => LastPacket(h, 9).Some?
    case _ => false
  }

  lemma HistoryStep(h: seq<Message>, m: Message)
    ensures forall f :: LastPacket(h + [m], f) == if ReportPacket(m, f).Some? then ReportPacket(m, f) else LastPacket(h, f)
    ensures LastNear(h + [m]) == if m.Proximity? then Some(m.inContext != 0) else LastNear(h)
    ensures forall k :: LastKey(h + [m], k) == if ReportKey(m, k).Some? then ReportKey(m, k) else LastKey(h, k)
    ensures AnyKey(h + [m]) <==> AnyKey(h) || (m.PacketExt? && m.key.Some?)
  {
  }

  lemma MarkBit(bits: ValidMask, changed: bool, j: nat, k: nat)
    ensures Bit(Mark(bits, changed, Pow2(j)), k) <==> Bit(bits, k) || (changed && k == j)
  {
    OrBit(bits, Pow2(j), k);
    Pow2Bit(j, k);
  }

  lemma PacketBitsBit(bits: ValidMask, p: Packet, k: nat)
    ensures Bit(PacketBits(bits, p), k) <==>
      (|| Bit(bits, k)
       || (p.Changed(PK_X) && k == 0) || (p.Changed(PK_Y) && k == 1) || (p.Changed(PK_Z) && k == 6)
       || (p.Changed(PK_NORMAL_PRESSURE) && k == 2) || (p.Changed(PK_BUTTONS) && k == 3))
  {
    var b0 := Mark(bits, p.Changed(PK_X), POSITION_X);
    var b1 := Mark(b0, p.Changed(PK_Y), POSITION_Y);
    var b2 := Mark(b1, p.Changed(PK_Z), HOVER_DISTANCE);
    var b3 := Mark(b2, p.Changed(PK_NORMAL_PRESSURE), PRESSURE);
    MarkBit(bits, p.Changed(PK_X), 0, k);
    MarkBit(b0, p.Changed(PK_Y), 1, k);
    MarkBit(b1, p.Changed(PK_Z), 6, k);
    MarkBit(b2, p.Changed(PK_NORMAL_PRESSURE), 2, k);
    MarkBit(b3, p.Changed(PK_BUTTONS), 3, k);
  }

  lemma {:induction false} FoldBits(extent: int, h: seq<Message>, k: nat)
    ensures Bit(Fold(extent, h).validBits, k) <==> BitReported(h, k)
    decreases |h|
  {
    if |h| == 0 {
      ZeroBit(k);
    } else {
      var rest, m := h[..|h| - 1], h[|h| - 1];
      assert h == rest + [m];
      FoldBits(extent, rest, k);
      HistoryStep(rest, m);
      var bits := Fold(extent, rest).validBits;
      SmallPowers();
      match m
      case PacketMessage(Some(p)) =>
        PacketBitsBit(bits, p, k);
        ChangedBits(p);
      case Proximity(_) => MarkBit(bits, true, 5, k);
      case PacketExt(Some(_)) => MarkBit(bits, true, 4, k);
      case _ =>
    }
  }

  lemma FoldValidity(extent: int, h: seq<Message>)
    ensures ValidityAgrees(extent, Fold(extent, h), h)
  {
    var s := Fold(extent, h);
    HasDataBits(s);
    forall k: nat ensures Bit(s.validBits, k) <==> BitReported(h, k) {
      FoldBits(extent, h, k);
    }
  }

  lemma {:induction false} FoldValues(extent: int, h: seq<Message>)
    ensures ValuesAgree(extent, Fold(extent, h), h)
    decreases |h|
  {
    if |h| > 0 {
      var rest, m := h[..|h| - 1], h[|h| - 1];
      assert h == rest + [m];
      FoldValues(extent, rest);
      HistoryStep(rest, m);
      if m.PacketMessage? && m.packet.Some? {
        ChangedBits(m.packet.value);
      }
    }
  }

  /**
    The aux-button mask refines a map: button k is down exactly when the last extension packet for
    control k said so, and only controls below 16 ever show.
   */
  lemma {:induction false} FoldButtons(extent: int, h: seq<Message>, k: nat)
    ensures Bit(Fold(extent, h).auxButtons, k) <==> k < 16 && LastKey(h, k) == Some(true)
    decreases |h|
  {
    if |h| == 0 {
      ZeroBit(k);
    } else {
      var rest, m := h[..|h| - 1], h[|h| - 1];
      FoldButtons(extent, rest, k);
      if m.PacketExt? && m.key.Some? {
        PressKeyBit(Fold(extent, rest).auxButtons, m.key.value, k);
      }
    }
  }

  /** After every run the state is the last-report-wins summary of the history. */
  lemma LastReportWins(extent: int, h: seq<Message>)
    ensures ValidityAgrees(extent, Fold(extent, h), h) && ValuesAgree(extent, Fold(extent, h), h)
  {
    FoldValidity(extent, h);
    FoldValues(extent, h);
  }

  /** Validity bits never clear. */
  lemma {:induction false} ValidityMonotone(extent: int, h: seq<Message>, more: seq<Message>, k: nat)
    ensures Bit(Fold(extent, h).validBits, k) ==> Bit(Fold(extent, h + more).validBits, k)
    decreases |more|
  {
    if |more| == 0 {
      assert h + more == h;
    } else {
      var rest, m := more[..|more| - 1], more[|more| - 1];
      ValidityMonotone(extent, h, rest, k);
      assert h + more == (h + rest) + [m];
      FoldBits(extent, h + rest, k);
      FoldBits(extent, h + more, k);
    }
  }

  // ---- The object ------------------------------------------------------------------------------

  /**
    `history` records the messages that reached ProcessMessageImpl.  `activations` counts the
    WTOverlap calls made to regain a lost context.
   */
  class Tablet {
    const window: int
    const extent: int
    var state: State
    var activations: nat
    ghost var history: seq<Message>

    ghost predicate Valid()
      reads this
    {
      state == Fold(extent, history)
    }

    constructor (window: int, extent: int)
      ensures Valid() && this.window == window && this.extent == extent
      ensures history == [] && activations == 0
    {
      this.window := window;
      this.extent := extent;
      state := EMPTY;
      activations := 0;
      history := [];
    }

    method ProcessPacket(p: Packet)
      modifies this`state
      ensures state == StepPacket(extent, old(state), p)
    {
      if p.Changed(PK_X) {
        state := state.(x := Round(p.x));
        state := state.(validBits := Or(state.validBits, POSITION_X));
      }
      if p.Changed(PK_Y) {
        state := state.(y := FlipY(extent, p.y));
        state := state.(validBits := Or(state.validBits, POSITION_Y));
      }
      if p.Changed(PK_Z) {
        state := state.(hoverDistance := Round(p.z));
        state := state.(validBits := Or(state.validBits, HOVER_DISTANCE));
      }
      if p.Changed(PK_NORMAL_PRESSURE) {
        state := state.(pressure := p.pressure);
        state := state.(validBits := Or(state.validBits, PRESSURE));
      }
      if p.Changed(PK_BUTTONS) {
        state := state.(penButtons := p.buttons);
        state := state.(validBits := Or(state.validBits, PEN_BUTTONS));
      }
    }

    method ProcessMessageImpl(m: Message) returns (accepted: bool)
      requires Valid() && ValidMessage(m)
      modifies this
      ensures Valid() && history == old(history) + [m]
      ensures accepted == Accepted(m)
      ensures accepted <==> m.Proximity? || m.CtxOverlap? || (m.PacketMessage? && m.packet.Some?) || (m.PacketExt? && m.key.Some?)
      ensures activations == old(activations) + if m.CtxOverlap? && m.ours && !m.onTop then 1 else 0
      ensures !accepted ==> state == old(state)
    {
      FoldThen(extent, history, m);
      history := history + [m];
      match m
      case Proximity(low) =>
        state := state.(penIsNearSurface := low != 0);
        state := state.(validBits := Or(state.validBits, PEN_IS_NEAR));
        accepted := true;
      case CtxOverlap(ours, onTop) =>
        if ours && !onTop {
          activations := activations + 1;
        }
        accepted := true;
      case PacketMessage(packet) =>
        if packet.None? {
          return false;
        }
        ProcessPacket(packet.value);
        accepted := true;
      case PacketExt(key) =>
        if key.None? {
          return false;
        }
        var mask := KeyMask(key.value.control);
        if key.value.state != 0 {
          state := state.(auxButtons := Or(state.auxButtons, mask));
        } else {
          state := state.(auxButtons := AndNot(state.auxButtons, mask));
        }
        state := state.(validBits := Or(state.validBits, AUX_BUTTONS));
        accepted := true;
      case Other =>
        accepted := false;
    }
  }
}
