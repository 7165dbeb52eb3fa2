/** Schedules that reach the states one would rather not see. */
module SessionWitnesses {
  import opened Basics
  import opened SessionProtocol
  import opened SessionProofs
  import opened Server

  lemma OnlySessionGets(stream: seq<Frame>, frame: Frame)
    ensures SendWhole(Shared(Some(0), [stream]), frame, true, true).shared
         == Shared(Some(0), [if stream == [] then [frame] else stream + [frame]])
  {
    assert [stream][0 := stream + [frame]] == [stream + [frame]];
    assert stream == [] ==> stream + [frame] == [frame];
  }

  /** The ping thread gets its frame out before the accept thread has begun Hello. */
  lemma PingSlipsIn(cfg: Config) returns (schedule: seq<Action>)
    requires ValidConfig(cfg) && Fits(cfg.helloSize) && Fits(cfg.pingSize) && cfg.sendsHello
    ensures var s := Run(cfg, schedule);
      s.accept == Greeting(Verify) && s.shared == Shared(Some(0), [[Frame(PingThread, Ping(1))]])
  {
    var s0 := Init(cfg);
    ConnectRun(cfg, s0);
    assert s0.shared.streams + [[]] == [[]];
    var pings := PingRun(cfg, Run(cfg, [Connect]), true);
    OnlySessionGets([], Frame(PingThread, Ping(1)));
    RunConcat(cfg, s0, [Connect], pings);
    schedule := [Connect] + pings;
  }

  /** Hello is not always first: a ping can overtake it. */
  lemma PingBeforeHello(cfg: Config) returns (schedule: seq<Action>)
    requires ValidConfig(cfg) && Fits(cfg.helloSize) && Fits(cfg.pingSize) && cfg.sendsHello
    ensures Run(cfg, schedule).shared.streams == [[Frame(PingThread, Ping(1)), Frame(AcceptThread, Hello)]]
  {
    schedule := PingSlipsIn(cfg);
    var s := Run(cfg, schedule);
    HelloRun(cfg, s, true);
    OnlySessionGets([Frame(PingThread, Ping(1))], Frame(AcceptThread, Hello));
    assert [Frame(PingThread, Ping(1))] + [Frame(AcceptThread, Hello)] == [Frame(PingThread, Ping(1)), Frame(AcceptThread, Hello)];
    var hello := Repeat(AcceptStep(true), SendLength(s.shared, true, true));
    RunConcat(cfg, Init(cfg), schedule, hello);
    schedule := schedule + hello;
  }

  // ---- Half-written devices ------------------------------------------------------------------------

  /** The message memory before SetDevice: blank, or the device of an earlier call. */
  function Base(cfg: Config, prior: Option<seq<Write>>): (m: seq<int>)
    ensures |m| == cfg.width
  {
    if prior.None? then Blank(cfg) else Complete(cfg, prior.value)
  }

  function Welcome(cfg: Config): seq<Frame> {
    if cfg.sendsHello then [Frame(AcceptThread, Hello)] else []
  }

  predicate ValidPrior(cfg: Config, prior: Option<seq<Write>>)
    requires ValidConfig(cfg)
  {
    prior.Some? ==> ValidProgram(cfg, prior.value)
  }

  function Welcomed(cfg: Config, prior: Option<seq<Write>>): State {
    Init(cfg).(memory := Base(cfg, prior), latest := prior, shared := Shared(Some(0), [Welcome(cfg)]), accept := Probing)
  }

  /** The devices of `prior` are stored, a client connects, and the accept thread is about to look for a device. */
  lemma ClientWelcomed(cfg: Config, prior: Option<seq<Write>>) returns (schedule: seq<Action>)
    requires ValidConfig(cfg) && Fits(cfg.helloSize) && ValidPrior(cfg, prior)
    ensures Run(cfg, schedule) == Welcomed(cfg, prior)
    ensures prior.None? ==> SetsNoDevice(schedule)
  {
    var s0 := Init(cfg);
    schedule := [];
    if prior.Some? {
      schedule := SetDeviceRun(cfg, s0, prior.value, true);
    }
    var s1 := Run(cfg, schedule);
    assert s1.shared == Shared(None, []);
    var greeting := GreetRun(cfg, s1, true);
    assert s1.shared.streams + [[]] == [[]];
    OnlySessionGets([], Frame(AcceptThread, Hello));
    RunConcat(cfg, s0, schedule, greeting);
    schedule := schedule + greeting;
  }

  /** The accept thread has found a device, and SetDevice has made n stores. */
  function Found(cfg: Config, prior: Option<seq<Write>>, p: seq<Write>, n: nat): State
    requires n <= |p|
  {
    var base := Base(cfg, prior);
    Welcomed(cfg, prior).(latest := Some(p), accept := Announcing(Verify),
                          memory := Patch(base, p[..n]), window := Writing(p, n, base))
  }

  /** SetDevice has begun. */
  function Begun(cfg: Config, prior: Option<seq<Write>>, p: seq<Write>): State {
    Welcomed(cfg, prior).(latest := Some(p), window := Writing(p, 0, Base(cfg, prior)))
  }

  lemma LooksAfter(cfg: Config, prior: Option<seq<Write>>, p: seq<Write>, m: nat)
    requires ValidConfig(cfg) && m <= |p| && Patch(Base(cfg, prior), p[..m])[cfg.readyCell] != 0
    ensures RunFrom(cfg, Begun(cfg, prior, p), Repeat(WindowStep(true), m) + [AcceptStep(true)]) == Found(cfg, prior, p, m)
  {
    StoresMade(cfg, Begun(cfg, prior, p), p, 0, m, Base(cfg, prior));
    RunThen(cfg, Begun(cfg, prior, p), Repeat(WindowStep(true), m), AcceptStep(true));
  }

  lemma BegunReached(cfg: Config, prior: Option<seq<Write>>, p: seq<Write>) returns (schedule: seq<Action>)
    requires ValidConfig(cfg) && Fits(cfg.helloSize) && ValidPrior(cfg, prior) && ValidProgram(cfg, p)
    ensures Run(cfg, schedule) == Begun(cfg, prior, p)
    ensures prior.None? ==> OneDevice(schedule, p)
  {
    var before := ClientWelcomed(cfg, prior);
    RunThen(cfg, Init(cfg), before, SetDevice(p));
    schedule := before + [SetDevice(p)];
  }

  /** SetDevice has made m stores when the accept thread finds the device ready. */
  lemma FoundReady(cfg: Config, prior: Option<seq<Write>>, p: seq<Write>, m: nat) returns (schedule: seq<Action>)
    requires ValidConfig(cfg) && Fits(cfg.helloSize) && ValidPrior(cfg, prior) && ValidProgram(cfg, p) && m <= |p|
    requires Patch(Base(cfg, prior), p[..m])[cfg.readyCell] != 0
    ensures Run(cfg, schedule) == Found(cfg, prior, p, m)
    ensures prior.None? ==> OneDevice(schedule, p)
  {
    var begun := BegunReached(cfg, prior, p);
    var more := Repeat(WindowStep(true), m) + [AcceptStep(true)];
    LooksAfter(cfg, prior, p, m);
    RunConcat(cfg, Init(cfg), begun, more);
    schedule := begun + more;
    if prior.None? {
      OneDeviceThen(begun, more, p);
    }
  }

  /** At most one SetDevice call, and it is for this device. */
  ghost predicate OneDevice(schedule: seq<Action>, p: seq<Write>) {
    forall i :: 0 <= i < |schedule| && schedule[i].SetDevice? ==> schedule[i] == SetDevice(p) && SetsNoDevice(schedule[..i])
  }

  lemma OneDeviceThen(schedule: seq<Action>, more: seq<Action>, p: seq<Write>)
    requires OneDevice(schedule, p) && SetsNoDevice(more)
    ensures OneDevice(schedule + more, p)
  {
    var all := schedule + more;
    forall i | 0 <= i < |all| && all[i].SetDevice? ensures all[i] == SetDevice(p) && SetsNoDevice(all[..i]) {
      assert all[..i] == schedule[..i];
    }
  }

  /** ... and n of them when it comes to send. */
  lemma StoresGoOn(cfg: Config, prior: Option<seq<Write>>, p: seq<Write>, m: nat, n: nat)
    requires ValidConfig(cfg) && m <= n <= |p|
    ensures RunFrom(cfg, Found(cfg, prior, p, m), Repeat(WindowStep(true), n - m)) == Found(cfg, prior, p, n)
  {
    StoresMade(cfg, Found(cfg, prior, p, m), p, m, n - m, Base(cfg, prior));
  }

  /** ... and then it sends. */
  lemma FoundIsSent(cfg: Config, prior: Option<seq<Write>>, p: seq<Write>, n: nat) returns (sends: seq<Action>)
    requires ValidConfig(cfg) && n <= |p| && Patch(Base(cfg, prior), p[..n])[cfg.sizeCell] == cfg.deviceSize
    ensures RunFrom(cfg, Found(cfg, prior, p, n), sends).shared.streams
         == [Welcome(cfg) + [Frame(AcceptThread, Device(Patch(Base(cfg, prior), p[..n])))]]
    ensures SetsNoDevice(sends)
  {
    var s := Found(cfg, prior, p, n);
    sends := Repeat(AcceptStep(true), SendLength(s.shared, true, true));
    AnnounceRun(cfg, s, true);
    OnlySessionGets(Welcome(cfg), Frame(AcceptThread, Device(s.memory)));
  }

  /**
    Half-written devices do reach clients: if the ready cell is set after m stores, then whichever
    later store n SetDevice has got to, the accept thread can send the memory as it is then.
    (NoLostDevice says the complete device always follows.)
   */
  lemma TornDeviceIsSent(cfg: Config, prior: Option<seq<Write>>, p: seq<Write>, m: nat, n: nat) returns (schedule: seq<Action>)
    requires ValidConfig(cfg) && Fits(cfg.helloSize) && ValidPrior(cfg, prior) && ValidProgram(cfg, p) && m <= n <= |p|
    requires Patch(Base(cfg, prior), p[..m])[cfg.readyCell] != 0
    ensures Run(cfg, schedule).shared.streams
         == [Welcome(cfg) + [Frame(AcceptThread, Device(Patch(Base(cfg, prior), p[..n])))]]
    ensures prior.None? ==> OneDevice(schedule, p)
  {
    var found := FoundReady(cfg, prior, p, m);
    var stores := Repeat(WindowStep(true), n - m);
    StoresGoOn(cfg, prior, p, m, n);
    RunConcat(cfg, Init(cfg), found, stores);
    AnnouncedSize(cfg, found + stores);
    var sends := FoundIsSent(cfg, prior, p, n);
    RunConcat(cfg, Init(cfg), found + stores, sends);
    schedule := found + stores + sends;
    if prior.None? {
      OneDeviceThen(found, stores, p);
      OneDeviceThen(found + stores, sends, p);
    }
  }
}
