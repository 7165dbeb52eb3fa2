/** The V1 view of the tablet state: what it means, and what it loses. */
module V1State {
  import opened Basics
  import opened Bits
  import opened Fnv1a
  import opened TabletState
  import opened WintabTablet

  datatype V1 = V1(
    vid: int, pid: int,
    positionValid: bool, x: int, y: int,
    pressureValid: bool, pressure: int,
    penButtonsValid: bool, penButtons: nat,
    auxButtonsValid: bool, auxButtons: nat,
    proximityValid: bool, hoverDistance: int, nearProximity: bool)

  /** A message as CreateMessage returns it. */
  function Blank(vid: int, pid: int): V1 {
    V1(vid, pid, false, 0, 0, false, 0, false, 0, false, 0, false, 0, false)
  }

  function Translate(vid: int, pid: int, s: State): V1 {
    var position := s.HasData(POSITION);
    var proximity := s.HasData(PEN_IS_NEAR) || s.HasData(HOVER_DISTANCE);
    V1(vid, pid,
       position, if position then s.x else 0, if position then s.y else 0,
       s.HasData(PRESSURE), if s.HasData(PRESSURE) then s.pressure else 0,
       s.HasData(PEN_BUTTONS), if s.HasData(PEN_BUTTONS) then AndNot(s.penButtons, 1) else 0,
       s.HasData(AUX_BUTTONS), if s.HasData(AUX_BUTTONS) then s.auxButtons else 0,
       proximity, if proximity then s.hoverDistance else 0, proximity && s.penIsNearSurface)
  }

  /** The part of V1Server that makes State messages; `sent` are the ones handed to Send. */
  class V1StateSender {
    var vid: int
    var pid: int
    var v1State: V1
    var sent: seq<V1>

    /** SetDevice leaves the IDs of the device's hash in mV1Device. */
    method SetDevice(persistentId: seq<Byte>)
      modifies this`vid, this`pid
      ensures vid == Hash(persistentId) % 0x1_0000 && pid == Hash(persistentId) / 0x1_0000
    {
      vid, pid := SynthesizeVidPid(persistentId);
    }

    method CopyPen(s: State)
      modifies this`v1State
      ensures var p, q := s.HasData(POSITION), s.HasData(PRESSURE);
        v1State == old(v1State).(positionValid := p, x := if p then s.x else old(v1State.x), y := if p then s.y else old(v1State.y),
                                 pressureValid := q, pressure := if q then s.pressure else old(v1State.pressure))
    {
      v1State := v1State.(positionValid := s.HasData(POSITION));
      if v1State.positionValid {
        v1State := v1State.(x := s.x);
        v1State := v1State.(y := s.y);
      }
      v1State := v1State.(pressureValid := s.HasData(PRESSURE));
      if v1State.pressureValid {
        v1State := v1State.(pressure := s.pressure);
      }
    }

    method CopyButtons(s: State)
      modifies this`v1State
      ensures var p, q := s.HasData(PEN_BUTTONS), s.HasData(AUX_BUTTONS);
        v1State == old(v1State).(penButtonsValid := p, penButtons := if p then AndNot(s.penButtons, 1) else old(v1State.penButtons),
                                 auxButtonsValid := q, auxButtons := if q then s.auxButtons else old(v1State.auxButtons))
    {
      v1State := v1State.(penButtonsValid := s.HasData(PEN_BUTTONS));
      if v1State.penButtonsValid {
        v1State := v1State.(penButtons := s.penButtons);
        v1State := v1State.(penButtons := AndNot(v1State.penButtons, 1));
      }
      v1State := v1State.(auxButtonsValid := s.HasData(AUX_BUTTONS));
      if v1State.auxButtonsValid {
        v1State := v1State.(auxButtons := s.auxButtons);
      }
    }

    method SetState(s: State)
      modifies this`v1State, this`sent
      ensures v1State == Translate(vid, pid, s) && sent == old(sent) + [v1State]
      ensures v1State.vid == vid && v1State.pid == pid
    {
      v1State := Blank(vid, pid);
      CopyPen(s);
      CopyButtons(s);
      var hasProximityData := s.HasData(PEN_IS_NEAR) || s.HasData(HOVER_DISTANCE);
      v1State := v1State.(proximityValid := hasProximityData);
      if hasProximityData {
        v1State := v1State.(nearProximity := s.penIsNearSurface);
        v1State := v1State.(hoverDistance := s.hoverDistance);
      }
      sent := sent + [v1State];
    }
  }

  // ---- End-to-end meaning ------------------------------------------------------------------------

  /** The V1 state as a direct reading of the driver's messages. */
  ghost predicate MeansHistory(extent: int, v: V1, h: seq<Message>, vid: int, pid: int) {
    && v.vid == vid && v.pid == pid
    && (v.positionValid <==> ReportedX(h).Some? && ReportedY(extent, h).Some?)
    && v.x == (if v.positionValid then ValueOr(ReportedX(h), 0) else 0)
    && v.y == (if v.positionValid then ValueOr(ReportedY(extent, h), 0) else 0)
    && (v.pressureValid <==> ReportedPressure(h).Some?) && v.pressure == ValueOr(ReportedPressure(h), 0)
    && (v.penButtonsValid <==> ReportedButtons(h).Some?)
    && (forall k: nat :: Bit(v.penButtons, k) <==> k > 0 && Bit(ValueOr(ReportedButtons(h), 0), k))
    && (v.auxButtonsValid <==> AnyKey(h))
    && (forall k: nat :: Bit(v.auxButtons, k) <==> k < 16 && LastKey(h, k) == Some(true))
    && (v.proximityValid <==> LastNear(h).Some? || ReportedHover(h).Some?)
    && v.nearProximity == ValueOr(LastNear(h), false)
    && v.hoverDistance == ValueOr(ReportedHover(h), 0)
  }

  lemma TipCleared(buttons: nat, k: nat)
    ensures Bit(AndNot(buttons, 1), k) <==> k > 0 && Bit(buttons, k)
  {
    AndNotBit(buttons, 1, k);
    Pow2Bit(0, k);
  }

  lemma {:induction false} NoKeyNoReport(h: seq<Message>, k: nat)
    requires !AnyKey(h)
    ensures LastKey(h, k) == None
    decreases |h|
  {
    if |h| > 0 {
      var rest := h[..|h| - 1];
      NoKeyNoReport(rest, k);
    }
  }

  lemma AuxMeans(extent: int, h: seq<Message>, k: nat)
    ensures var s := Fold(extent, h);
      Bit(if s.HasData(AUX_BUTTONS) then s.auxButtons else 0, k) <==> k < 16 && LastKey(h, k) == Some(true)
  {
    FoldValidity(extent, h);
    FoldButtons(extent, h, k);
    ZeroBit(k);
    if !AnyKey(h) {
      NoKeyNoReport(h, k);
    }
  }

  lemma PenMeans(extent: int, h: seq<Message>, k: nat)
    ensures var s := Fold(extent, h);
      Bit(if s.HasData(PEN_BUTTONS) then AndNot(s.penButtons, 1) else 0, k)
      <==> k > 0 && Bit(ValueOr(ReportedButtons(h), 0), k)
  {
    LastReportWins(extent, h);
    TipCleared(Fold(extent, h).penButtons, k);
  }

  /** After every run of driver messages, what a V1 client is sent is exactly what the history says. */
  lemma EndToEnd(extent: int, h: seq<Message>, vid: int, pid: int)
    ensures MeansHistory(extent, Translate(vid, pid, Fold(extent, h)), h, vid, pid)
  {
    LastReportWins(extent, h);
    forall k: nat
      ensures Bit(Translate(vid, pid, Fold(extent, h)).auxButtons, k) <==> k < 16 && LastKey(h, k) == Some(true)
      ensures Bit(Translate(vid, pid, Fold(extent, h)).penButtons, k) <==> k > 0 && Bit(ValueOr(ReportedButtons(h), 0), k)
    {
      AuxMeans(extent, h, k);
      PenMeans(extent, h, k);
    }
  }

  /**
    With the device's IDs: after SetDevice(id), the state sent for any history carries the halves of
    the ID's hash, the low one as vendor ID, and means the history.
   */
  lemma DeviceThenState(id: seq<Byte>, extent: int, h: seq<Message>)
    ensures var m, hash := Translate(Vid(Hash(id)), Pid(Hash(id)), Fold(extent, h)), Hash(id);
      && m.vid == hash % 0x1_0000 && m.pid == hash / 0x1_0000 && m.pid * 0x1_0000 + m.vid == hash
      && MeansHistory(extent, m, h, hash % 0x1_0000, hash / 0x1_0000)
  {
    EndToEnd(extent, h, Vid(Hash(id)), Pid(Hash(id)));
  }

  // ---- What V1 loses ------------------------------------------------------------------------------

  /** The two states differ at most in the pen tip, in a one-axis position, and in which proximity bit is set. */
  ghost predicate DifferUnseen(s: State, t: State) {
    && s.HasData(POSITION) == t.HasData(POSITION)
    && (s.HasData(POSITION) ==> s.x == t.x && s.y == t.y)
    && s.HasData(PRESSURE) == t.HasData(PRESSURE) && s.pressure == t.pressure
    && s.HasData(PEN_BUTTONS) == t.HasData(PEN_BUTTONS)
    && AgreeAboveTip(s.penButtons, t.penButtons)
    && s.HasData(AUX_BUTTONS) == t.HasData(AUX_BUTTONS) && s.auxButtons == t.auxButtons
    && (s.HasData(PEN_IS_NEAR) || s.HasData(HOVER_DISTANCE)) == (t.HasData(PEN_IS_NEAR) || t.HasData(HOVER_DISTANCE))
    && s.penIsNearSurface == t.penIsNearSurface && s.hoverDistance == t.hoverDistance
  }

  /** Numbers with the same bits are equal. */
  lemma {:induction false} SameBits(a: nat, b: nat)
    requires forall k: nat :: Bit(a, k) == Bit(b, k)
    ensures a == b
    decreases a + b
  {
    assert Bit(a, 0) == Bit(b, 0);
    if a + b > 0 {
      forall k: nat ensures Bit(a / 2, k) == Bit(b / 2, k) {
        assert Bit(a, k + 1) == Bit(b, k + 1);
      }
      SameBits(a / 2, b / 2);
    }
  }

  /** Clearing the tip bit identifies exactly the button masks that agree above it. */
  ghost predicate AgreeAboveTip(a: nat, b: nat) {
    forall k: nat :: k > 0 ==> Bit(a, k) == Bit(b, k)
  }

  lemma SameButtons(a: nat, b: nat)
    ensures AndNot(a, 1) == AndNot(b, 1) <==> AgreeAboveTip(a, b)
  {
    forall k: nat
      ensures Bit(AndNot(a, 1), k) <==> k > 0 && Bit(a, k)
      ensures Bit(AndNot(b, 1), k) <==> k > 0 && Bit(b, k)
    {
      TipCleared(a, k);
      TipCleared(b, k);
    }
    if AgreeAboveTip(a, b) {
      SameBits(AndNot(a, 1), AndNot(b, 1));
    } else {
      var k: nat :| k > 0 && Bit(a, k) != Bit(b, k);
    }
  }

  lemma NoKeyNoButtons(extent: int, h: seq<Message>)
    requires !AnyKey(h)
    ensures Fold(extent, h).auxButtons == 0
  {
  }

  lemma LossOneWay(extent: int, g: seq<Message>, h: seq<Message>, vid: int, pid: int)
    requires Translate(vid, pid, Fold(extent, g)) == Translate(vid, pid, Fold(extent, h))
    ensures DifferUnseen(Fold(extent, g), Fold(extent, h))
  {
    var s, t := Fold(extent, g), Fold(extent, h);
    LastReportWins(extent, g);
    LastReportWins(extent, h);
    if !AnyKey(g) {
      NoKeyNoButtons(extent, g);
      NoKeyNoButtons(extent, h);
    }
    SameButtons(s.penButtons, t.penButtons);
  }

  /**
    For one device, two reachable states give the same V1 state exactly when they differ unseen.
    Reachability matters: a field that was never reported still holds its default.
   */
  lemma V1LosesExactly(extent: int, g: seq<Message>, h: seq<Message>, vid: int, pid: int)
    ensures Translate(vid, pid, Fold(extent, g)) == Translate(vid, pid, Fold(extent, h))
       <==> DifferUnseen(Fold(extent, g), Fold(extent, h))
  {
    var s, t := Fold(extent, g), Fold(extent, h);
    if DifferUnseen(s, t) {
      SameButtons(s.penButtons, t.penButtons);
    }
    if Translate(vid, pid, s) == Translate(vid, pid, t) {
      LossOneWay(extent, g, h, vid, pid);
    }
  }
}
