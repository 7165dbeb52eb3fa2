/** What tells the two servers apart: Hello, idle pings, and the handle after a session. */
module Protocols {
  import opened Basics
  import opened SessionProtocol
  import opened SessionProofs
  import opened Server
  import opened DeviceLayouts
  import Framing
  import Messages

  /** The sizes SendRaw is given are those of the structs: header, padding and fields. */
  lemma StructSizes(h: Messages.Hello)
    requires Messages.ValidHello(h)
    ensures V2.helloSize == |Framing.Encode(Messages.HelloFrame(h))| == 12 + 4 + 8 + 3 * 256 + 8
    ensures V2.pingSize == V1.pingSize == 12 + 4 + 8
    ensures V2.deviceSize == 12 + 3 * 4 + 2 * 256 && V1.deviceSize == 12 + 4 + 3 * 4 + 64 * 2
  {
  }

  // ---- Hello -------------------------------------------------------------------------------------

  ghost predicate OneHello(stream: seq<Frame>) {
    exists i :: 0 <= i < |stream| && stream[i].body.Hello? && forall j :: 0 <= j < |stream| && stream[j].body.Hello? ==> j == i
  }

  /** V2, every schedule: frames are orderly, and an installed client whose handshake is over has had exactly one Hello. */
  lemma V2Greets(schedule: seq<Action>, session: nat)
    requires session < |Run(V2, schedule).shared.streams|
    ensures var s := Run(V2, schedule);
      && Orderly(s.shared.streams[session], session in s.early)
      && (s.shared.handle == Some(session) && (s.accept.Probing? || s.accept.Announcing? || s.accept.Serving? || s.accept.Waiting?)
          ==> OneHello(s.shared.streams[session]))
  {
    var s := Run(V2, schedule);
    Reachable(V2, schedule);
    var stream := s.shared.streams[session];
    if s.shared.handle == Some(session) && !s.accept.Greeting? {
      assert Greeted(stream);
      var i :| 0 <= i < |stream| && stream[i].body.Hello?;
      forall j | 0 <= j < |stream| && stream[j].body.Hello? ensures j == i {
      }
    }
  }

  ghost predicate SaysHello(streams: seq<seq<Frame>>) {
    exists k, i :: 0 <= k < |streams| && 0 <= i < |streams[k]| && streams[k][i].body.Hello?
  }

  lemma HelloOnlyFrom(shared: Shared, frame: Frame, sizeMatches: bool, at: SendPc, ok: bool)
    requires SaysHello(SendStep(shared, frame, sizeMatches, at, ok).shared.streams) && !frame.body.Hello?
    ensures SaysHello(shared.streams)
  {
    var streams: seq<seq<Frame>> := SendStep(shared, frame, sizeMatches, at, ok).shared.streams;
    var k, i :| 0 <= k < |streams| && 0 <= i < |streams[k]| && streams[k][i].body.Hello?;
    assert i < |shared.streams[k]| && shared.streams[k][i].body.Hello?;
  }

  ghost predicate Silent(s: State) {
    !s.accept.Greeting? && !SaysHello(s.shared.streams)
  }

  lemma SilentThreads(cfg: Config, s: State, ok: bool)
    requires ValidConfig(cfg) && |s.memory| == cfg.width && Silent(s)
    ensures Silent(StepPing(cfg, s, ok)) && Silent(StepAccept(cfg, s, ok))
  {
    if s.ping.Pinging? && SaysHello(StepPing(cfg, s, ok).shared.streams) {
      HelloOnlyFrom(s.shared, Frame(PingThread, Ping(s.ping.number)), Fits(cfg.pingSize), s.ping.at, ok);
    }
    if s.accept.Announcing? && SaysHello(StepAccept(cfg, s, ok).shared.streams) {
      HelloOnlyFrom(s.shared, Frame(AcceptThread, Device(s.memory)), s.memory[cfg.sizeCell] == cfg.deviceSize, s.accept.at, ok);
    }
  }

  lemma SilentWindow(cfg: Config, s: State, ok: bool)
    requires ValidConfig(cfg) && |s.memory| == cfg.width && Silent(s)
    ensures Silent(StepWindow(cfg, s, ok))
  {
    var w := s.window;
    if SaysHello(StepWindow(cfg, s, ok).shared.streams) {
      if w.SendingDevice? {
        HelloOnlyFrom(s.shared, Frame(WindowThread, Device(s.memory)), s.memory[cfg.sizeCell] == cfg.deviceSize, w.at, ok);
      } else if w.Reporting? {
        HelloOnlyFrom(s.shared, Frame(WindowThread, Message(w.words)), Fits(w.length), w.at, ok);
      }
    }
  }

  lemma SilentConnect(streams: seq<seq<Frame>>)
    requires SaysHello(streams + [[]])
    ensures SaysHello(streams)
  {
    var all: seq<seq<Frame>> := streams + [[]];
    var k, i :| 0 <= k < |all| && 0 <= i < |all[k]| && all[k][i].body.Hello?;
    assert streams[k][i].body.Hello?;
  }

  lemma SilentStep(cfg: Config, s: State, a: Action)
    requires ValidConfig(cfg) && !cfg.sendsHello && |s.memory| == cfg.width && Silent(s)
    ensures Silent(Apply(cfg, s, a))
  {
    match a
    case Connect =>
      if SaysHello(s.shared.streams + [[]]) {
        SilentConnect(s.shared.streams);
      }
    case AcceptStep(ok) => SilentThreads(cfg, s, ok);
    case PingStep(ok) => SilentThreads(cfg, s, ok);
    case WindowStep(ok) => SilentWindow(cfg, s, ok);
    case _ =>
  }

  lemma {:induction false} SilentRun(cfg: Config, schedule: seq<Action>)
    requires ValidConfig(cfg) && !cfg.sendsHello
    ensures Silent(Run(cfg, schedule))
    decreases |schedule|
  {
    if |schedule| > 0 {
      SilentRun(cfg, schedule[..|schedule| - 1]);
      SilentStep(cfg, Run(cfg, schedule[..|schedule| - 1]), schedule[|schedule| - 1]);
    }
  }

  /** V1, every schedule: no client ever gets a Hello. */
  lemma V1NeverGreets(schedule: seq<Action>, session: nat, i: nat)
    requires session < |Run(V1, schedule).shared.streams| && i < |Run(V1, schedule).shared.streams[session]|
    ensures !Run(V1, schedule).shared.streams[session][i].body.Hello?
  {
    SilentRun(V1, schedule);
  }

  // ---- Pings with nobody connected ------------------------------------------------------------------

  /** V1 numbers every tick of its timer, client or not. */
  lemma V1NumbersEveryTick(schedule: seq<Action>)
    ensures var s := Run(V1, schedule); s.counter + (if s.ping.Counting? then 1 else 0) == s.ticks
  {
    Reachable(V1, schedule);
  }

  /** V2 lets a tick pass when no client is installed, and starts a ping when one is. */
  lemma V2TickNeedsClient(schedule: seq<Action>)
    requires Run(V2, schedule).ping.Resting?
    ensures var s, s' := Run(V2, schedule), Run(V2, schedule + [PingTick]);
      s'.counter == s.counter && s'.ticks == s.ticks + 1 && (s'.ping.Resting? <==> s.shared.handle.None?)
  {
    RunThen(V2, Init(V2), schedule, PingTick);
  }

  // ---- The handle after a session ----------------------------------------------------------------------

  ghost predicate Cleared(s: State) {
    s.accept.Waiting? ==> s.shared.handle.None?
  }

  lemma ClearedStep(cfg: Config, s: State, a: Action)
    requires ValidConfig(cfg) && cfg.alwaysClears && |s.memory| == cfg.width && Cleared(s)
    ensures Cleared(Apply(cfg, s, a))
  {
  }

  /** V1, every schedule: once AcceptOnce has returned no pipe is installed. */
  lemma {:induction false} V1Clears(schedule: seq<Action>)
    ensures Run(V1, schedule).accept.Waiting? ==> Run(V1, schedule).shared.handle.None?
    decreases |schedule|
  {
    if |schedule| > 0 {
      V1Clears(schedule[..|schedule| - 1]);
      ClearedStep(V1, Run(V1, schedule[..|schedule| - 1]), schedule[|schedule| - 1]);
    }
  }

  /** The two ends of a session: with a reset, or with the handle left where it was. */
  lemma Ends(cfg: Config, s: State, clears: bool)
    requires ValidConfig(cfg) && |s.memory| == cfg.width && s.accept.Serving? && (cfg.alwaysClears ==> clears)
    ensures Apply(cfg, s, Disconnect(clears)).accept.Waiting?
    ensures Apply(cfg, s, Disconnect(clears)).shared == if clears then Shared(None, s.shared.streams) else s.shared
  {
  }

  /** V2 returns from a failed read without a reset: the dead client stays installed until the next one. */
  lemma V2KeepsDeadClient() returns (schedule: seq<Action>)
    ensures Run(V2, schedule).accept.Waiting? && Run(V2, schedule).shared.handle == Some(0)
  {
    schedule := HandshakeRun(V2, Init(V2), true, true);
    RunThen(V2, Init(V2), schedule, Disconnect(false));
    schedule := schedule + [Disconnect(false)];
  }
}
