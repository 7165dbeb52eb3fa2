/** From the tablet's states to the State frames a client receives. */
module Delivery {
  import opened Basics
  import opened SessionProtocol
  import opened SessionProofs
  import opened DeviceLayouts
  import FanOut
  import TabletState
  import WintabTablet
  import V1State
  import Bits

  // ---- The calls of the window thread -----------------------------------------------------------

  datatype Call = DeviceCall(program: seq<Write>) | StateCall(words: seq<int>)

  /** The SetDevice and SetState calls that a schedule begins, in order. */
  ghost function Calls(cfg: Config, schedule: seq<Action>): (r: seq<Call>)
    requires ValidConfig(cfg)
    decreases |schedule|
  {
    if |schedule| == 0 then []
    else
      var rest, a := schedule[..|schedule| - 1], schedule[|schedule| - 1];
      Calls(cfg, rest) + NewCall(cfg, Run(cfg, rest), a)
  }

  ghost function NewCall(cfg: Config, s: State, a: Action): (r: seq<Call>)
    requires ValidConfig(cfg)
  {
    if !s.window.Idle? then []
    else match a
      case SetDevice(p) => if ValidProgram(cfg, p) then [DeviceCall(p)] else []
      case Report(words, _) => [StateCall(words)]
      case _ => []
  }

  function Words(calls: seq<Call>): (r: seq<seq<int>>)
    decreases |calls|
  {
    if |calls| == 0 then []
    else
      var c := calls[|calls| - 1];
      if c.StateCall? then Words(calls[..|calls| - 1]) + [c.words] else Words(calls[..|calls| - 1])
  }

  // ---- The State frames of a session --------------------------------------------------------------

  function Messages(stream: seq<Frame>): (r: seq<seq<int>>)
    decreases |stream|
  {
    if |stream| == 0 then []
    else
      var f := stream[|stream| - 1].body;
      if f.Message? then Messages(stream[..|stream| - 1]) + [f.words] else Messages(stream[..|stream| - 1])
  }

  /** Over all sessions, in session order. */
  function AllMessages(streams: seq<seq<Frame>>): (r: seq<seq<int>>)
    decreases |streams|
  {
    if |streams| == 0 then [] else AllMessages(streams[..|streams| - 1]) + Messages(streams[|streams| - 1])
  }

  /** a is what is left of b after leaving some elements out. */
  ghost predicate Subsequence<T(!new)>(a: seq<T>, b: seq<T>)
    decreases |b|
  {
    |a| == 0
    || (|b| > 0
        && (Subsequence(a, b[..|b| - 1])
            || (a[|a| - 1] == b[|b| - 1] && Subsequence(a[..|a| - 1], b[..|b| - 1]))))
  }

  lemma SubsequenceThen<T(!new)>(a: seq<T>, b: seq<T>, x: T)
    requires Subsequence(a, b)
    ensures Subsequence(a, b + [x]) && Subsequence(a + [x], b + [x])
  {
    assert (a + [x])[..|a|] == a && (b + [x])[..|b|] == b;
  }

  // ---- Every schedule -------------------------------------------------------------------------------

  lemma MessagesSend(shared: Shared, frame: Frame, sizeMatches: bool, at: SendPc, ok: bool)
    requires shared.handle.Some? ==> shared.handle.value == |shared.streams| - 1
    ensures var e := SendStep(shared, frame, sizeMatches, at, ok);
      AllMessages(e.shared.streams)
      == if e.outcome == Return(true) && frame.body.Message? then AllMessages(shared.streams) + [frame.body.words] else AllMessages(shared.streams)
  {
  }

  lemma MessagesConnect(streams: seq<seq<Frame>>)
    ensures AllMessages(streams + [[]]) == AllMessages(streams)
  {
    assert (streams + [[]])[..|streams|] == streams;
  }

  /** What has been delivered is a selection, in order, of the calls that have ended. */
  ghost predicate InOrder(s: State, words: seq<seq<int>>) {
    var sent := AllMessages(s.shared.streams);
    if s.window.Reporting?
    then |words| > 0 && words[|words| - 1] == s.window.words && Subsequence(sent, words[..|words| - 1])
    else Subsequence(sent, words)
  }

  lemma InOrderAccept(cfg: Config, s: State, ok: bool, words: seq<seq<int>>)
    requires ValidConfig(cfg) && |s.memory| == cfg.width && Tidy(s) && InOrder(s, words)
    ensures InOrder(StepAccept(cfg, s, ok), words)
  {
    if s.accept.Greeting? {
      MessagesSend(s.shared, Frame(AcceptThread, Hello), Fits(cfg.helloSize), s.accept.at, ok);
    } else if s.accept.Announcing? {
      MessagesSend(s.shared, Frame(AcceptThread, Device(s.memory)), s.memory[cfg.sizeCell] == cfg.deviceSize, s.accept.at, ok);
    }
  }

  lemma InOrderPing(cfg: Config, s: State, ok: bool, words: seq<seq<int>>)
    requires Tidy(s) && InOrder(s, words)
    ensures InOrder(StepPing(cfg, s, ok), words)
  {
    if s.ping.Pinging? {
      MessagesSend(s.shared, Frame(PingThread, Ping(s.ping.number)), Fits(cfg.pingSize), s.ping.at, ok);
    }
  }

  lemma ReportMoves(cfg: Config, s: State, ok: bool)
    requires ValidConfig(cfg) && |s.memory| == cfg.width && s.window.Reporting?
    ensures var w, s' := s.window, StepWindow(cfg, s, ok);
      var e := SendStep(s.shared, Frame(WindowThread, Message(w.words)), Fits(w.length), w.at, ok);
      s'.shared == e.shared && (s'.window.Reporting? <==> e.outcome.Continue?) && (s'.window.Reporting? ==> s'.window.words == w.words)
  {
  }

  /** A step of SetState's own send: the frame goes out, or the call ends without it, or it is still under way. */
  lemma InOrderReport(cfg: Config, s: State, ok: bool, done: seq<seq<int>>)
    requires ValidConfig(cfg) && |s.memory| == cfg.width && Tidy(s) && s.window.Reporting?
    requires Subsequence(AllMessages(s.shared.streams), done)
    ensures InOrder(StepWindow(cfg, s, ok), done + [s.window.words])
  {
    var w := s.window;
    ReportMoves(cfg, s, ok);
    MessagesSend(s.shared, Frame(WindowThread, Message(w.words)), Fits(w.length), w.at, ok);
    SubsequenceThen(AllMessages(s.shared.streams), done, w.words);
    assert (done + [w.words])[..|done|] == done;
  }

  lemma InOrderWindow(cfg: Config, s: State, ok: bool, words: seq<seq<int>>)
    requires ValidConfig(cfg) && |s.memory| == cfg.width && Tidy(s) && InOrder(s, words)
    ensures InOrder(StepWindow(cfg, s, ok), words)
  {
    var w := s.window;
    if w.SendingDevice? {
      MessagesSend(s.shared, Frame(WindowThread, Device(s.memory)), s.memory[cfg.sizeCell] == cfg.deviceSize, w.at, ok);
    } else if w.Reporting? {
      InOrderReport(cfg, s, ok, words[..|words| - 1]);
      assert words == words[..|words| - 1] + [w.words];
    }
  }

  lemma InOrderStep(cfg: Config, s: State, a: Action, calls: seq<Call>)
    requires ValidConfig(cfg) && |s.memory| == cfg.width && Tidy(s) && InOrder(s, Words(calls))
    ensures InOrder(Apply(cfg, s, a), Words(calls + NewCall(cfg, s, a)))
  {
    var words, more := Words(calls), NewCall(cfg, s, a);
    assert more == [] ==> calls + more == calls;
    assert |more| == 1 ==> (calls + more)[..|calls|] == calls;
    match a
    case Connect => MessagesConnect(s.shared.streams);
    case AcceptStep(ok) => InOrderAccept(cfg, s, ok, words);
    case PingStep(ok) => InOrderPing(cfg, s, ok, words);
    case WindowStep(ok) => InOrderWindow(cfg, s, ok, words);
    case Report(w, _) => assert (words + [w])[..|words|] == words;
    case _ =>
  }

  ghost predicate DeviceAmong(calls: seq<Call>) {
    exists i :: 0 <= i < |calls| && calls[i].DeviceCall?
  }

  /** There is a latest device exactly when there was a device call, and it is that of one of them. */
  ghost predicate DeviceCalled(s: State, calls: seq<Call>) {
    && (DeviceAmong(calls) <==> s.latest.Some?)
    && (s.latest.Some? ==> DeviceCall(s.latest.value) in calls)
  }

  lemma DeviceCalledStep(cfg: Config, s: State, a: Action, calls: seq<Call>)
    requires ValidConfig(cfg) && |s.memory| == cfg.width && DeviceCalled(s, calls)
    ensures DeviceCalled(Apply(cfg, s, a), calls + NewCall(cfg, s, a))
  {
    var more := NewCall(cfg, s, a);
    var all := calls + more;
    if DeviceAmong(calls) {
      var i :| 0 <= i < |calls| && calls[i].DeviceCall?;
      assert all[i].DeviceCall?;
    }
    if |more| > 0 && more[0].DeviceCall? {
      assert all[|calls|].DeviceCall?;
    }
  }

  lemma {:induction false} CallsRun(cfg: Config, schedule: seq<Action>)
    requires ValidConfig(cfg)
    ensures InOrder(Run(cfg, schedule), Words(Calls(cfg, schedule))) && DeviceCalled(Run(cfg, schedule), Calls(cfg, schedule))
    decreases |schedule|
  {
    if |schedule| > 0 {
      var rest, a := schedule[..|schedule| - 1], schedule[|schedule| - 1];
      CallsRun(cfg, rest);
      Reachable(cfg, rest);
      InOrderStep(cfg, Run(cfg, rest), a, Calls(cfg, rest));
      DeviceCalledStep(cfg, Run(cfg, rest), a, Calls(cfg, rest));
    }
  }

  // ---- The tablet's calls ------------------------------------------------------------------------

  type StateWords = TabletState.State -> seq<int>

  /** The calls a server gets for the events of its log. */
  function Script(program: seq<Write>, words: StateWords, log: seq<FanOut.Event>): (r: seq<Call>)
    ensures |r| == |log|
  {
    seq(|log|, i requires 0 <= i < |log| =>
      match log[i] case DeviceEvent(_) => DeviceCall(program) case StateEvent(s) => StateCall(words(s)))
  }

  /** The states of the accepted messages, each as its frame carries it, in order. */
  function Reports(words: StateWords, extent: int, h: seq<TabletState.Message>): (r: seq<seq<int>>)
    decreases |h|
  {
    if |h| == 0 then []
    else
      var rest := Reports(words, extent, h[..|h| - 1]);
      if TabletState.Accepted(h[|h| - 1]) then rest + [words(WintabTablet.Fold(extent, h))] else rest
  }

  lemma {:induction false} ScriptWords(program: seq<Write>, words: StateWords, d: FanOut.DeviceInfo, extent: int, h: seq<TabletState.Message>)
    ensures Words(Script(program, words, FanOut.Log(d, extent, h))) == Reports(words, extent, h)
    decreases |h|
  {
    var script := Script(program, words, FanOut.Log(d, extent, h));
    if |h| == 0 {
      assert script == [DeviceCall(program)] && script[..0] == [];
    } else {
      var rest := h[..|h| - 1];
      var before := Script(program, words, FanOut.Log(d, extent, rest));
      ScriptWords(program, words, d, extent, rest);
      if TabletState.Accepted(h[|h| - 1]) {
        assert script[..|before|] == before;
      } else {
        assert script == before;
      }
    }
  }

  lemma {:induction false} WordsPrefix(calls: seq<Call>, all: seq<Call>)
    requires calls <= all
    ensures Words(calls) <= Words(all)
    decreases |all|
  {
    if |calls| < |all| {
      WordsPrefix(calls, all[..|all| - 1]);
    } else {
      assert calls == all;
    }
  }

  lemma {:induction false} SubsequencePrefix<T(!new)>(a: seq<T>, b: seq<T>, c: seq<T>)
    requires Subsequence(a, b) && b <= c
    ensures Subsequence(a, c)
    decreases |c|
  {
    if |b| < |c| {
      SubsequencePrefix(a, b, c[..|c| - 1]);
    } else {
      assert b == c;
    }
  }

  /** The window thread has made some of the tablet's calls, in the order of its log. */
  ghost predicate Follows(cfg: Config, schedule: seq<Action>, script: seq<Call>)
    requires ValidConfig(cfg)
  {
    Calls(cfg, schedule) <= script
  }

  /** Every schedule: a SetState call finds a stored device exactly when a SetDevice call came before it. */
  lemma PresentIff(cfg: Config, schedule: seq<Action>)
    requires ValidConfig(cfg) && Run(cfg, schedule).window.Reporting?
    ensures Run(cfg, schedule).memory[cfg.readyCell] != 0 <==> DeviceAmong(Calls(cfg, schedule))
  {
    CallsRun(cfg, schedule);
    Reachable(cfg, schedule);
  }

  /** So a message dispatched before the tablet's constructor has set the device would find none. */
  lemma StateBeforeDevice(cfg: Config, words: seq<int>, length: nat)
    requires ValidConfig(cfg)
    ensures var s := Run(cfg, [Report(words, length)]);
      s.window == Reporting(words, length, Verify) && s.memory[cfg.readyCell] == 0
  {
    RunThen(cfg, Init(cfg), [], Report(words, length));
    assert [] + [Report(words, length)] == [Report(words, length)];
  }

  /** In the tablet's order of calls the stored device is present and complete whenever a SetState call is under way. */
  lemma DevicePresent(cfg: Config, schedule: seq<Action>, program: seq<Write>, words: StateWords,
                      d: FanOut.DeviceInfo, extent: int, h: seq<TabletState.Message>)
    requires ValidConfig(cfg) && Follows(cfg, schedule, Script(program, words, FanOut.Log(d, extent, h)))
    requires Run(cfg, schedule).window.Reporting?
    ensures Run(cfg, schedule).memory == Complete(cfg, program) && Run(cfg, schedule).memory[cfg.readyCell] != 0
  {
    var s, calls, log := Run(cfg, schedule), Calls(cfg, schedule), FanOut.Log(d, extent, h);
    CallsRun(cfg, schedule);
    FanOut.DeviceThenStates(d, extent, h);
    assert |calls| > 0 && calls[0] == Script(program, words, log)[0] == DeviceCall(program);
    assert DeviceAmong(calls);
    assert s.latest == Some(program);
    Reachable(cfg, schedule);
  }

  /**
    Whatever the threads do: the State frames that clients receive, over all sessions in order, are a
    selection, in order, of the states the tablet had after each message it accepted.
   */
  lemma StatesInOrder(cfg: Config, schedule: seq<Action>, program: seq<Write>, words: StateWords,
                      d: FanOut.DeviceInfo, extent: int, h: seq<TabletState.Message>)
    requires ValidConfig(cfg) && Follows(cfg, schedule, Script(program, words, FanOut.Log(d, extent, h)))
    ensures Subsequence(AllMessages(Run(cfg, schedule).shared.streams), Reports(words, extent, h))
  {
    var sent, calls := AllMessages(Run(cfg, schedule).shared.streams), Words(Calls(cfg, schedule));
    CallsRun(cfg, schedule);
    var done := if Run(cfg, schedule).window.Reporting? then calls[..|calls| - 1] else calls;
    WordsPrefix(Calls(cfg, schedule), Script(program, words, FanOut.Log(d, extent, h)));
    ScriptWords(program, words, d, extent, h);
    SubsequencePrefix(sent, done, Reports(words, extent, h));
  }

  // ---- What one State frame says ----------------------------------------------------------------------

  lemma {:induction false} MessageListed(stream: seq<Frame>, k: nat)
    requires k < |stream| && stream[k].body.Message?
    ensures stream[k].body.words in Messages(stream)
    decreases |stream|
  {
    if k < |stream| - 1 {
      MessageListed(stream[..|stream| - 1], k);
    }
  }

  lemma {:induction false} StreamListed(streams: seq<seq<Frame>>, j: nat, w: seq<int>)
    requires j < |streams| && w in Messages(streams[j])
    ensures w in AllMessages(streams)
    decreases |streams|
  {
    if j < |streams| - 1 {
      StreamListed(streams[..|streams| - 1], j, w);
    }
  }

  lemma {:induction false} SubsequenceMember<T(!new)>(a: seq<T>, b: seq<T>, x: T)
    requires Subsequence(a, b) && x in a
    ensures x in b
    decreases |b|
  {
    var b' := b[..|b| - 1];
    if Subsequence(a, b') {
      SubsequenceMember(a, b', x);
    } else if x != b[|b| - 1] {
      SubsequenceMember(a[..|a| - 1], b', x);
    }
  }

  lemma {:induction false} ReportOf(words: StateWords, extent: int, h: seq<TabletState.Message>, w: seq<int>) returns (i: nat)
    requires w in Reports(words, extent, h)
    ensures i < |h| && TabletState.Accepted(h[i]) && w == words(WintabTablet.Fold(extent, h[..i + 1]))
    decreases |h|
  {
    var rest := h[..|h| - 1];
    if w in Reports(words, extent, rest) {
      i := ReportOf(words, extent, rest, w);
      assert rest[..i + 1] == h[..i + 1];
    } else {
      i := |h| - 1;
      assert h[..i + 1] == h;
    }
  }

  /** Every State frame that reaches a client is the state after some accepted message. */
  lemma FrameIsReport(cfg: Config, schedule: seq<Action>, program: seq<Write>, words: StateWords,
                      d: FanOut.DeviceInfo, extent: int, h: seq<TabletState.Message>, session: nat, k: nat) returns (i: nat)
    requires ValidConfig(cfg) && Follows(cfg, schedule, Script(program, words, FanOut.Log(d, extent, h)))
    requires session < |Run(cfg, schedule).shared.streams| && k < |Run(cfg, schedule).shared.streams[session]|
    requires Run(cfg, schedule).shared.streams[session][k].body.Message?
    ensures i < |h| && TabletState.Accepted(h[i])
    ensures Run(cfg, schedule).shared.streams[session][k].body.words == words(WintabTablet.Fold(extent, h[..i + 1]))
  {
    var streams: seq<seq<Frame>> := Run(cfg, schedule).shared.streams;
    var w := streams[session][k].body.words;
    MessageListed(streams[session], k);
    StreamListed(streams, session, w);
    StatesInOrder(cfg, schedule, program, words, d, extent, h);
    SubsequenceMember(AllMessages(streams), Reports(words, extent, h), w);
    i := ReportOf(words, extent, h, w);
  }

  /** The V2 State frame: the header with the stored device's tablet ID, then the fields in the order of the struct. */
  function V2StateWords(id: int, s: TabletState.State): (r: seq<int>) {
    [2, 44, id, s.validBits, s.x, s.y, s.pressure, s.penButtons, s.auxButtons, s.hoverDistance, if s.penIsNearSurface then 1 else 0]
  }

  /** A V2 State frame as a direct reading of the driver's messages, word by word. */
  ghost predicate V2WordsMean(extent: int, id: int, w: seq<int>, h: seq<TabletState.Message>) {
    && |w| == 11 && w[0] == 2 && w[1] == 44 && w[2] == id
    && w[3] >= 0 && (forall k: nat :: Bits.Bit(w[3], k) <==> WintabTablet.BitReported(h, k))
    && w[4] == WintabTablet.ValueOr(WintabTablet.ReportedX(h), 0)
    && w[5] == WintabTablet.ValueOr(WintabTablet.ReportedY(extent, h), 0)
    && w[6] == WintabTablet.ValueOr(WintabTablet.ReportedPressure(h), 0)
    && w[7] == WintabTablet.ValueOr(WintabTablet.ReportedButtons(h), 0)
    && w[8] >= 0 && (forall k: nat :: Bits.Bit(w[8], k) <==> k < 16 && TabletState.LastKey(h, k) == Some(true))
    && w[9] == WintabTablet.ValueOr(WintabTablet.ReportedHover(h), 0)
    && w[10] == if WintabTablet.ValueOr(TabletState.LastNear(h), false) then 1 else 0
  }

  /** After every run of driver messages the V2 State frame says exactly what the history says. */
  lemma V2EndToEnd(extent: int, h: seq<TabletState.Message>, id: int)
    ensures V2WordsMean(extent, id, V2StateWords(id, WintabTablet.Fold(extent, h)), h)
  {
    var s := WintabTablet.Fold(extent, h);
    WintabTablet.FoldValues(extent, h);
    forall k: nat
      ensures Bits.Bit(s.validBits, k) <==> WintabTablet.BitReported(h, k)
      ensures Bits.Bit(s.auxButtons, k) <==> k < 16 && TabletState.LastKey(h, k) == Some(true)
    {
      WintabTablet.FoldBits(extent, h, k);
      WintabTablet.FoldButtons(extent, h, k);
    }
  }

  /** Every schedule: a State frame a V2 client gets carries the device's tablet ID and means the history up to some accepted message. */
  lemma V2StateFrame(schedule: seq<Action>, v: V2Info, d: FanOut.DeviceInfo, extent: int, h: seq<TabletState.Message>,
                     session: nat, k: nat) returns (i: nat)
    requires ValidInfo(v)
    requires Follows(V2, schedule, Script(V2Program(v), s => V2StateWords(v.id, s), FanOut.Log(d, extent, h)))
    requires session < |Run(V2, schedule).shared.streams| && k < |Run(V2, schedule).shared.streams[session]|
    requires Run(V2, schedule).shared.streams[session][k].body.Message?
    ensures i < |h| && TabletState.Accepted(h[i])
    ensures V2WordsMean(extent, v.id, Run(V2, schedule).shared.streams[session][k].body.words, h[..i + 1])
  {
    i := FrameIsReport(V2, schedule, V2Program(v), s => V2StateWords(v.id, s), d, extent, h, session, k);
    V2EndToEnd(extent, h[..i + 1], v.id);
  }

  /** SetState reads the tablet ID from a device that is there: `mDevice->` never touches an empty optional. */
  lemma V2DevicePresent(schedule: seq<Action>, v: V2Info, d: FanOut.DeviceInfo, extent: int, h: seq<TabletState.Message>)
    requires ValidInfo(v) && Run(V2, schedule).window.Reporting?
    requires Follows(V2, schedule, Script(V2Program(v), s => V2StateWords(v.id, s), FanOut.Log(d, extent, h)))
    ensures Run(V2, schedule).memory[0] == 1 && Run(V2, schedule).memory[3] == v.id
  {
    DevicePresent(V2, schedule, V2Program(v), s => V2StateWords(v.id, s), d, extent, h);
    V2Stored(v);
  }

  function Flag(b: bool): int {
    if b then 1 else 0
  }

  /** The V1 State frame, in the order of its struct. */
  function V1StateWords(v: V1State.V1): (r: seq<int>) {
    [2, 60, v.vid, v.pid, Flag(v.positionValid), v.x, v.y, Flag(v.pressureValid), v.pressure, Flag(v.penButtonsValid), v.penButtons,
     Flag(v.auxButtonsValid), v.auxButtons, Flag(v.proximityValid), v.hoverDistance, Flag(v.nearProximity)]
  }

  /** The same for a V1 State frame. */
  ghost predicate V1WordsMean(extent: int, vid: int, pid: int, w: seq<int>, h: seq<TabletState.Message>) {
    && |w| == 16 && w[0] == 2 && w[1] == 60 && w[2] == vid && w[3] == pid
    && var both := WintabTablet.ReportedX(h).Some? && WintabTablet.ReportedY(extent, h).Some?;
    && w[4] == (if both then 1 else 0)
    && w[5] == (if both then WintabTablet.ReportedX(h).value else 0)
    && w[6] == (if both then WintabTablet.ReportedY(extent, h).value else 0)
    && w[7] == (if WintabTablet.ReportedPressure(h).Some? then 1 else 0)
    && w[8] == WintabTablet.ValueOr(WintabTablet.ReportedPressure(h), 0)
    && w[9] == (if WintabTablet.ReportedButtons(h).Some? then 1 else 0)
    && w[10] >= 0 && (forall k: nat :: Bits.Bit(w[10], k) <==> k > 0 && Bits.Bit(WintabTablet.ValueOr(WintabTablet.ReportedButtons(h), 0), k))
    && w[11] == (if TabletState.AnyKey(h) then 1 else 0)
    && w[12] >= 0 && (forall k: nat :: Bits.Bit(w[12], k) <==> k < 16 && TabletState.LastKey(h, k) == Some(true))
    && w[13] == (if TabletState.LastNear(h).Some? || WintabTablet.ReportedHover(h).Some? then 1 else 0)
    && w[14] == WintabTablet.ValueOr(WintabTablet.ReportedHover(h), 0)
    && w[15] == (if WintabTablet.ValueOr(TabletState.LastNear(h), false) then 1 else 0)
  }

  lemma V1WordsAt(v: V1State.V1)
    ensures var w := V1StateWords(v);
      && |w| == 16 && w[0] == 2 && w[1] == 60 && w[2] == v.vid && w[3] == v.pid
      && w[4] == Flag(v.positionValid) && w[5] == v.x && w[6] == v.y && w[7] == Flag(v.pressureValid) && w[8] == v.pressure
      && w[9] == Flag(v.penButtonsValid) && w[10] == v.penButtons && w[11] == Flag(v.auxButtonsValid) && w[12] == v.auxButtons
      && w[13] == Flag(v.proximityValid) && w[14] == v.hoverDistance && w[15] == Flag(v.nearProximity)
  {
  }

  lemma V1WordsOf(extent: int, v: V1State.V1, h: seq<TabletState.Message>, vid: int, pid: int)
    requires V1State.MeansHistory(extent, v, h, vid, pid)
    ensures V1WordsMean(extent, vid, pid, V1StateWords(v), h)
  {
    V1WordsAt(v);
  }

  lemma V1FrameEndToEnd(extent: int, h: seq<TabletState.Message>, vid: int, pid: int)
    ensures V1WordsMean(extent, vid, pid, V1StateWords(V1State.Translate(vid, pid, WintabTablet.Fold(extent, h))), h)
  {
    V1State.EndToEnd(extent, h, vid, pid);
    V1WordsOf(extent, V1State.Translate(vid, pid, WintabTablet.Fold(extent, h)), h, vid, pid);
  }

  /** Every schedule: a State frame a V1 client gets carries the device's IDs and means the history up to some accepted message. */
  lemma V1StateFrame(schedule: seq<Action>, v: V1Info, d: FanOut.DeviceInfo, extent: int, h: seq<TabletState.Message>,
                     session: nat, k: nat) returns (i: nat)
    requires Follows(V1, schedule,
                     Script(V1Program(v), s => V1StateWords(V1State.Translate(v.vid, v.pid, s)), FanOut.Log(d, extent, h)))
    requires session < |Run(V1, schedule).shared.streams| && k < |Run(V1, schedule).shared.streams[session]|
    requires Run(V1, schedule).shared.streams[session][k].body.Message?
    ensures i < |h| && TabletState.Accepted(h[i])
    ensures V1WordsMean(extent, v.vid, v.pid, Run(V1, schedule).shared.streams[session][k].body.words, h[..i + 1])
  {
    i := FrameIsReport(V1, schedule, V1Program(v), s => V1StateWords(V1State.Translate(v.vid, v.pid, s)), d, extent, h, session, k);
    V1FrameEndToEnd(extent, h[..i + 1], v.vid, v.pid);
  }

  /** V1's SetState, too, reads its IDs from a device that is there. */
  lemma V1DevicePresent(schedule: seq<Action>, v: V1Info, d: FanOut.DeviceInfo, extent: int, h: seq<TabletState.Message>)
    requires Run(V1, schedule).window.Reporting?
    requires Follows(V1, schedule,
                     Script(V1Program(v), s => V1StateWords(V1State.Translate(v.vid, v.pid, s)), FanOut.Log(d, extent, h)))
    ensures Run(V1, schedule).memory[2] == v.vid && Run(V1, schedule).memory[3] == v.pid
  {
    DevicePresent(V1, schedule, V1Program(v), s => V1StateWords(V1State.Translate(v.vid, v.pid, s)), d, extent, h);
    V1Stored(v);
  }
}
