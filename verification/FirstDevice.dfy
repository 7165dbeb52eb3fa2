/**
  The devices a client can receive when SetDevice is called once, as the adapter does: the tablet's
  constructor announces its device and nothing else ever does.
 */
module FirstDevice {
  import opened Basics
  import opened SessionProtocol
  import opened SessionProofs
  import opened Server
  import opened SessionWitnesses

  /** The message memory after the first n stores of a first SetDevice. */
  function Image(cfg: Config, p: seq<Write>, n: nat): (m: seq<int>)
    ensures |m| == cfg.width
  {
    Patch(Blank(cfg), p[..Min(n, |p|)])
  }

  /** The ready cell has been set after some number of stores up to n. */
  ghost predicate ReadyBy(cfg: Config, p: seq<Write>, n: nat)
    requires ValidConfig(cfg)
  {
    exists m: nat :: m <= n && Image(cfg, p, m)[cfg.readyCell] != 0
  }

  /** The memory after k stores, for a k up to n by which the ready cell has been set. */
  ghost predicate Sendable(cfg: Config, p: seq<Write>, cells: seq<int>, n: nat)
    requires ValidConfig(cfg)
  {
    exists k: nat :: k <= n && ReadyBy(cfg, p, k) && cells == Image(cfg, p, k)
  }

  ghost predicate Arrived(streams: seq<seq<Frame>>, cells: seq<int>) {
    exists j, i :: 0 <= j < |streams| && 0 <= i < |streams[j]| && streams[j][i].body == Device(cells)
  }

  function StoresDone(s: State, p: seq<Write>): nat {
    if s.latest.None? then 0 else if s.window.Writing? then s.window.done else |p|
  }

  ghost predicate AllSendable(cfg: Config, s: State, p: seq<Write>)
    requires ValidConfig(cfg)
  {
    forall cells :: Arrived(s.shared.streams, cells) ==> Sendable(cfg, p, cells, StoresDone(s, p))
  }

  ghost predicate Single(cfg: Config, s: State, p: seq<Write>)
    requires ValidConfig(cfg)
  {
    && (if s.latest.None? then !s.window.Writing? && !s.window.SendingDevice? else s.latest == Some(p) && ValidProgram(cfg, p))
    && (s.window.Writing? ==> s.window.program == p && s.window.done <= |p|)
    && s.memory == Image(cfg, p, StoresDone(s, p))
    && (s.accept.Announcing? ==> ReadyBy(cfg, p, StoresDone(s, p)))
    && AllSendable(cfg, s, p)
  }

  lemma SendableLater(cfg: Config, p: seq<Write>, cells: seq<int>, n: nat, n': nat)
    requires ValidConfig(cfg) && n <= n' && Sendable(cfg, p, cells, n)
    ensures Sendable(cfg, p, cells, n')
  {
    var k: nat :| k <= n && ReadyBy(cfg, p, k) && cells == Image(cfg, p, k);
    assert k <= n' && ReadyBy(cfg, p, k) && cells == Image(cfg, p, k);
  }

  lemma ReadyAtEnd(cfg: Config, p: seq<Write>)
    requires ValidConfig(cfg) && ValidProgram(cfg, p)
    ensures ReadyBy(cfg, p, |p|) && Image(cfg, p, |p|) == Complete(cfg, p)
  {
    assert p[..|p|] == p;
    assert Image(cfg, p, |p|)[cfg.readyCell] != 0;
  }

  /** A step of SendRaw delivers at most its own frame. */
  lemma DeliversOnly(shared: Shared, frame: Frame, sizeMatches: bool, at: SendPc, ok: bool, cells: seq<int>)
    requires Arrived(SendStep(shared, frame, sizeMatches, at, ok).shared.streams, cells)
    ensures Arrived(shared.streams, cells) || frame.body == Device(cells)
  {
    var streams: seq<seq<Frame>> := SendStep(shared, frame, sizeMatches, at, ok).shared.streams;
    var j, i :| 0 <= j < |streams| && 0 <= i < |streams[j]| && streams[j][i].body == Device(cells);
    if i < |shared.streams[j]| {
      assert shared.streams[j][i].body == Device(cells);
    }
  }

  lemma SingleAccept(cfg: Config, s: State, p: seq<Write>, ok: bool)
    requires ValidConfig(cfg) && |s.memory| == cfg.width && Single(cfg, s, p)
    ensures Single(cfg, StepAccept(cfg, s, ok), p)
  {
    var s', n := StepAccept(cfg, s, ok), StoresDone(s, p);
    if s.accept.Probing? {
      assert s'.accept.Announcing? ==> Image(cfg, p, n)[cfg.readyCell] != 0;
    } else if s.accept.Greeting? || s.accept.Announcing? {
      var f := Frame(AcceptThread, if s.accept.Greeting? then Hello else Device(s.memory));
      var fits := if s.accept.Greeting? then Fits(cfg.helloSize) else s.memory[cfg.sizeCell] == cfg.deviceSize;
      forall cells | Arrived(s'.shared.streams, cells) ensures Sendable(cfg, p, cells, n) {
        DeliversOnly(s.shared, f, fits, s.accept.at, ok, cells);
      }
    }
  }

  lemma SinglePing(cfg: Config, s: State, p: seq<Write>, ok: bool)
    requires ValidConfig(cfg) && Single(cfg, s, p)
    ensures Single(cfg, StepPing(cfg, s, ok), p)
  {
    if s.ping.Pinging? {
      var s' := StepPing(cfg, s, ok);
      forall cells | Arrived(s'.shared.streams, cells) ensures Sendable(cfg, p, cells, StoresDone(s, p)) {
        DeliversOnly(s.shared, Frame(PingThread, Ping(s.ping.number)), Fits(cfg.pingSize), s.ping.at, ok, cells);
      }
    }
  }

  lemma SingleStore(cfg: Config, s: State, p: seq<Write>)
    requires ValidConfig(cfg) && |s.memory| == cfg.width && Single(cfg, s, p) && s.window.Writing? && s.latest.Some?
    ensures Single(cfg, StepWindow(cfg, s, true), p)
  {
    var s', n := StepWindow(cfg, s, true), s.window.done;
    if n < |p| {
      PatchOne(Blank(cfg), p, n);
      forall cells | Arrived(s'.shared.streams, cells) ensures Sendable(cfg, p, cells, n + 1) {
        SendableLater(cfg, p, cells, n, n + 1);
      }
    }
  }

  lemma SingleSend(cfg: Config, s: State, p: seq<Write>, ok: bool)
    requires ValidConfig(cfg) && |s.memory| == cfg.width && Single(cfg, s, p) && (s.window.SendingDevice? || s.window.Reporting?)
    ensures Single(cfg, StepWindow(cfg, s, ok), p)
  {
    var s', w := StepWindow(cfg, s, ok), s.window;
    var f := Frame(WindowThread, if w.SendingDevice? then Device(s.memory) else Message(w.words));
    var fits := if w.SendingDevice? then s.memory[cfg.sizeCell] == cfg.deviceSize else Fits(w.length);
    forall cells | Arrived(s'.shared.streams, cells) ensures Sendable(cfg, p, cells, StoresDone(s, p)) {
      DeliversOnly(s.shared, f, fits, w.at, ok, cells);
      if w.SendingDevice? {
        ReadyAtEnd(cfg, p);
      }
    }
  }

  lemma SingleConnect(cfg: Config, s: State, p: seq<Write>)
    requires ValidConfig(cfg) && |s.memory| == cfg.width && Single(cfg, s, p)
    ensures Single(cfg, Apply(cfg, s, Connect), p)
  {
    var s' := Apply(cfg, s, Connect);
    forall cells | Arrived(s'.shared.streams, cells) ensures Arrived(s.shared.streams, cells) {
      var j, i :| 0 <= j < |s'.shared.streams| && 0 <= i < |s'.shared.streams[j]| && s'.shared.streams[j][i].body == Device(cells);
      assert s.shared.streams[j][i].body == Device(cells);
    }
  }

  lemma SingleStep(cfg: Config, s: State, p: seq<Write>, a: Action)
    requires ValidConfig(cfg) && |s.memory| == cfg.width && Single(cfg, s, p)
    requires a.SetDevice? ==> a == SetDevice(p) && s.latest.None?
    ensures Single(cfg, Apply(cfg, s, a), p)
  {
    match a
    case Connect => SingleConnect(cfg, s, p);
    case AcceptStep(ok) => SingleAccept(cfg, s, p, ok);
    case PingStep(ok) => SinglePing(cfg, s, p, ok);
    case WindowStep(ok) =>
      if s.window.Writing? {
        SingleStore(cfg, s, p);
      } else if s.window.SendingDevice? || s.window.Reporting? {
        SingleSend(cfg, s, p, ok);
      }
    case _ =>
  }

  lemma {:induction false} SingleRun(cfg: Config, schedule: seq<Action>, p: seq<Write>)
    requires ValidConfig(cfg) && OneDevice(schedule, p)
    ensures Single(cfg, Run(cfg, schedule), p)
    ensures SetsNoDevice(schedule) ==> Run(cfg, schedule).latest.None?
    decreases |schedule|
  {
    if |schedule| > 0 {
      var rest, a := schedule[..|schedule| - 1], schedule[|schedule| - 1];
      forall i | 0 <= i < |rest| && rest[i].SetDevice? ensures rest[i] == SetDevice(p) && SetsNoDevice(rest[..i]) {
        assert rest[i] == schedule[i] && rest[..i] == schedule[..i];
      }
      SingleRun(cfg, rest, p);
      SingleStep(cfg, Run(cfg, rest), p, a);
    }
  }

  ghost predicate CanReceive(cfg: Config, p: seq<Write>, cells: seq<int>)
    requires ValidConfig(cfg)
  {
    exists schedule :: OneDevice(schedule, p) && Arrived(Run(cfg, schedule).shared.streams, cells)
  }

  lemma ReceivedOnly(cfg: Config, schedule: seq<Action>, p: seq<Write>, cells: seq<int>)
    requires ValidConfig(cfg) && OneDevice(schedule, p) && Arrived(Run(cfg, schedule).shared.streams, cells)
    ensures Sendable(cfg, p, cells, |p|)
  {
    SingleRun(cfg, schedule, p);
    SendableLater(cfg, p, cells, StoresDone(Run(cfg, schedule), p), |p|);
  }

  lemma EachReceived(cfg: Config, p: seq<Write>, m: nat, k: nat)
    requires ValidConfig(cfg) && Fits(cfg.helloSize) && ValidProgram(cfg, p) && m <= k <= |p| && Image(cfg, p, m)[cfg.readyCell] != 0
    ensures CanReceive(cfg, p, Image(cfg, p, k))
  {
    var schedule := TornDeviceIsSent(cfg, None, p, m, k);
    var streams: seq<seq<Frame>> := Run(cfg, schedule).shared.streams;
    assert streams[0][|streams[0]| - 1].body == Device(Image(cfg, p, k));
  }

  /**
    Over every schedule with one SetDevice call, the devices that reach some client are exactly the
    memory images after k stores, for every k by which the ready cell has been set.
   */
  lemma ReceivedIff(cfg: Config, p: seq<Write>, cells: seq<int>)
    requires ValidConfig(cfg) && Fits(cfg.helloSize) && ValidProgram(cfg, p)
    ensures CanReceive(cfg, p, cells) <==> Sendable(cfg, p, cells, |p|)
  {
    if CanReceive(cfg, p, cells) {
      var schedule :| OneDevice(schedule, p) && Arrived(Run(cfg, schedule).shared.streams, cells);
      ReceivedOnly(cfg, schedule, p, cells);
    }
    if Sendable(cfg, p, cells, |p|) {
      var k: nat :| k <= |p| && ReadyBy(cfg, p, k) && cells == Image(cfg, p, k);
      var m: nat :| m <= k && Image(cfg, p, m)[cfg.readyCell] != 0;
      EachReceived(cfg, p, m, k);
    }
  }
}
