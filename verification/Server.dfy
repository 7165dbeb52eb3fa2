/**
  The servers' methods as sequential code.  A call that no other thread interrupts is a run of the
  session protocol in which only the calling thread takes steps.
 */
module Server {
  import opened Basics
  import opened SessionProtocol
  import opened SessionProofs

  // ---- SendRaw without interruption -------------------------------------------------------------

  function SendWhole(shared: Shared, frame: Frame, sizeMatches: bool, ok: bool): Effect {
    if !sizeMatches then Effect(shared, Crash)
    else if shared.handle.None? then Effect(shared, Return(false))
    else if ok && shared.handle.value < |shared.streams| then
      var k := shared.handle.value;
      Effect(shared.(streams := shared.streams[k := shared.streams[k] + [frame]]), Return(true))
    else Effect(shared.(handle := None), Return(false))
  }

  /** How many atomic steps the call takes. */
  function SendLength(shared: Shared, sizeMatches: bool, ok: bool): nat {
    if !sizeMatches then 1
    else if shared.handle.None? then 2
    else if ok && shared.handle.value < |shared.streams| then 4
    else 5
  }

  /** The first n atomic steps, with nobody else moving. */
  function Iterate(shared: Shared, frame: Frame, sizeMatches: bool, ok: bool, n: nat): Effect {
    if n == 0 then Effect(shared, Continue(Verify))
    else
      var e := Iterate(shared, frame, sizeMatches, ok, n - 1);
      match e.outcome
      case Continue(at) => SendStep(e.shared, frame, sizeMatches, at, ok)
      case _ => e
  }

  lemma SendWholeIsSteps(shared: Shared, frame: Frame, sizeMatches: bool, ok: bool)
    ensures var n := SendLength(shared, sizeMatches, ok);
      && Iterate(shared, frame, sizeMatches, ok, n) == SendWhole(shared, frame, sizeMatches, ok)
      && forall k: nat :: k < n ==> Iterate(shared, frame, sizeMatches, ok, k).outcome.Continue?
  {
    var n := SendLength(shared, sizeMatches, ok);
    assert Iterate(shared, frame, sizeMatches, ok, 1).outcome.Continue? <==> sizeMatches;
    if n >= 2 {
      var e2 := Iterate(shared, frame, sizeMatches, ok, 2);
      if n >= 4 {
        assert Iterate(shared, frame, sizeMatches, ok, 3) == Effect(shared, Continue(Transmit(shared.handle)));
      }
    }
  }

  // ---- Each thread's call is that many steps of the protocol ---------------------------------------

  /** The window thread is where the send's effect says; only it and the shared part have moved. */
  ghost predicate SendingAt(s: State, start: State, e: Effect) {
    && (start.accept.Greeting? || s.early == start.early)
    && s == start.(shared := e.shared, early := s.early,
                window := match e.outcome case Continue(at) => SendingDevice(at) case Return(_) => Idle case Crash => WindowCrashed(0))
  }

  lemma SendingStep(cfg: Config, s: State, start: State, e: Effect, ok: bool)
    requires ValidConfig(cfg) && |start.memory| == cfg.width && start.memory[cfg.sizeCell] == cfg.deviceSize
    requires SendingAt(s, start, e) && e.outcome.Continue?
    ensures SendingAt(StepWindow(cfg, s, ok), start, SendStep(e.shared, Frame(WindowThread, Device(start.memory)), true, e.outcome.at, ok))
  {
  }

  lemma {:induction false} SendingSteps(cfg: Config, s: State, ok: bool, n: nat)
    requires ValidConfig(cfg) && |s.memory| == cfg.width && s.window == SendingDevice(Verify)
    requires s.memory[cfg.sizeCell] == cfg.deviceSize && n <= SendLength(s.shared, true, ok)
    ensures SendingAt(WindowSteps(cfg, s, ok, n), s, Iterate(s.shared, Frame(WindowThread, Device(s.memory)), true, ok, n))
  {
    if n > 0 {
      var f := Frame(WindowThread, Device(s.memory));
      SendWholeIsSteps(s.shared, f, true, ok);
      SendingSteps(cfg, s, ok, n - 1);
      SendingStep(cfg, WindowSteps(cfg, s, ok, n - 1), s, Iterate(s.shared, f, true, ok, n - 1), ok);
    }
  }

  lemma AcceptingStep(cfg: Config, s: State, hello: bool, at: SendPc, ok: bool)
    requires ValidConfig(cfg) && |s.memory| == cfg.width && s.accept == (if hello then Greeting(at) else Announcing(at))
    requires hello ==> Fits(cfg.helloSize)
    ensures var e := SendStep(s.shared, Frame(AcceptThread, if hello then Hello else Device(s.memory)),
                              hello || s.memory[cfg.sizeCell] == cfg.deviceSize, at, ok);
      StepAccept(cfg, s, ok) == s.(shared := e.shared, accept := AcceptAt(hello, e.outcome))
  {
  }

  function AcceptAt(hello: bool, o: Outcome): AcceptPc {
    match o
    case Continue(at) => (if hello then Greeting(at) else Announcing(at))
    case Return(_) => (if hello then Probing else Serving)
    case Crash => AcceptCrashed
  }

  lemma {:induction false} AcceptingSteps(cfg: Config, s: State, hello: bool, ok: bool, n: nat)
    requires ValidConfig(cfg) && |s.memory| == cfg.width && s.accept == (if hello then Greeting(Verify) else Announcing(Verify))
    requires if hello then Fits(cfg.helloSize) else s.memory[cfg.sizeCell] == cfg.deviceSize
    requires n <= SendLength(s.shared, true, ok)
    ensures var e := Iterate(s.shared, Frame(AcceptThread, if hello then Hello else Device(s.memory)), true, ok, n);
      RunFrom(cfg, s, Repeat(AcceptStep(ok), n)) == s.(shared := e.shared, accept := AcceptAt(hello, e.outcome))
  {
    if n > 0 {
      var f := Frame(AcceptThread, if hello then Hello else Device(s.memory));
      SendWholeIsSteps(s.shared, f, true, ok);
      AcceptingSteps(cfg, s, hello, ok, n - 1);
      var e := Iterate(s.shared, f, true, ok, n - 1);
      AcceptingStep(cfg, RunFrom(cfg, s, Repeat(AcceptStep(ok), n - 1)), hello, e.outcome.at, ok);
      RunOneMore(cfg, s, AcceptStep(ok), n - 1);
    }
  }

  /** The ping thread is where the send's effect says; nothing else it shares has moved. */
  ghost predicate PingAt(s: State, start: State, number: nat, e: Effect) {
    && s.shared == e.shared && s.memory == start.memory && s.counter == start.counter && s.accept == start.accept
    && s.ping == match e.outcome case Continue(at) => Pinging(number, at) case Return(_) => Resting case Crash => PingCrashed
  }

  lemma PingingStep(cfg: Config, s: State, start: State, number: nat, e: Effect, ok: bool)
    requires Fits(cfg.pingSize) && PingAt(s, start, number, e) && e.outcome.Continue?
    ensures PingAt(StepPing(cfg, s, ok), start, number, SendStep(e.shared, Frame(PingThread, Ping(number)), true, e.outcome.at, ok))
  {
  }

  function PingSteps(cfg: Config, s: State, ok: bool, n: nat): State {
    if n == 0 then s else StepPing(cfg, PingSteps(cfg, s, ok, n - 1), ok)
  }

  lemma {:induction false} PingAlone(cfg: Config, s: State, ok: bool, n: nat)
    requires ValidConfig(cfg) && |s.memory| == cfg.width
    ensures RunFrom(cfg, s, Repeat(PingStep(ok), n)) == PingSteps(cfg, s, ok, n)
  {
    if n > 0 {
      PingAlone(cfg, s, ok, n - 1);
      RunOneMore(cfg, s, PingStep(ok), n - 1);
    }
  }

  lemma {:induction false} PingingSteps(cfg: Config, s: State, number: nat, ok: bool, n: nat)
    requires Fits(cfg.pingSize) && s.ping == Pinging(number, Verify) && n <= SendLength(s.shared, true, ok)
    ensures PingAt(PingSteps(cfg, s, ok, n), s, number, Iterate(s.shared, Frame(PingThread, Ping(number)), true, ok, n))
  {
    if n > 0 {
      var f := Frame(PingThread, Ping(number));
      SendWholeIsSteps(s.shared, f, true, ok);
      PingingSteps(cfg, s, number, ok, n - 1);
      PingingStep(cfg, PingSteps(cfg, s, ok, n - 1), s, number, Iterate(s.shared, f, true, ok, n - 1), ok);
    }
  }

  /** The protocol run of one uninterrupted round of PingLoop. */
  lemma PingRun(cfg: Config, s: State, ok: bool) returns (schedule: seq<Action>)
    requires ValidConfig(cfg) && Fits(cfg.pingSize) && |s.memory| == cfg.width && s.ping.Resting?
    ensures var s' := RunFrom(cfg, s, schedule);
      && s'.memory == s.memory && s'.accept == s.accept && s'.ping.Resting?
      && if cfg.skipsIdlePing && s.shared.handle.None? then s'.shared == s.shared && s'.counter == s.counter
         else s'.counter == s.counter + 1
              && s'.shared == SendWhole(s.shared, Frame(PingThread, Ping(s.counter + 1)), true, ok).shared
  {
    var none: seq<Action> := [];
    RunThen(cfg, s, none, PingTick);
    schedule := none + [PingTick];
    if !(cfg.skipsIdlePing && s.shared.handle.None?) {
      schedule := schedule + [PingStep(ok)];
      var n := SendLength(s.shared, true, ok);
      PingingSteps(cfg, RunFrom(cfg, s, schedule), s.counter + 1, ok, n);
      PingAlone(cfg, RunFrom(cfg, s, schedule), ok, n);
      SendWholeIsSteps(s.shared, Frame(PingThread, Ping(s.counter + 1)), true, ok);
      RunConcat(cfg, s, schedule, Repeat(PingStep(ok), n));
      schedule := schedule + Repeat(PingStep(ok), n);
    }
  }

  /** The protocol run of an uninterrupted SetDevice call. */
  lemma SetDeviceRun(cfg: Config, s: State, program: seq<Write>, ok: bool) returns (schedule: seq<Action>)
    requires ValidConfig(cfg) && |s.memory| == cfg.width && s.window.Idle? && ValidProgram(cfg, program)
    ensures var d, s' := Complete(cfg, program), RunFrom(cfg, s, schedule);
      s' == s.(memory := d, latest := Some(program), early := s'.early,
               shared := SendWhole(s.shared, Frame(WindowThread, Device(d)), true, ok).shared)
      && (s.accept.Greeting? || s'.early == s.early)
  {
    var first, d := [SetDevice(program)], Complete(cfg, program);
    var s1 := Apply(cfg, s, SetDevice(program));
    StoresMade(cfg, s1, program, 0, |program|, s.memory);
    assert program[..|program|] == program;
    FinishedDevice(cfg, s.memory, program);
    CompleteSize(cfg, program);
    var writes := Repeat(WindowStep(true), |program|);
    RunConcat(cfg, s, first, writes);
    var prefix := first + writes + [WindowStep(true)];
    var n := SendLength(s.shared, true, ok);
    SendingSteps(cfg, RunFrom(cfg, s, prefix), ok, n);
    WindowAlone(cfg, RunFrom(cfg, s, prefix), ok, n);
    SendWholeIsSteps(s.shared, Frame(WindowThread, Device(d)), true, ok);
    RunConcat(cfg, s, prefix, Repeat(WindowStep(ok), n));
    schedule := prefix + Repeat(WindowStep(ok), n);
  }

  /** The state the accept thread leaves when nobody interrupts it between accept and the read loop. */
  function Handshaken(cfg: Config, s: State, okHello: bool, okDevice: bool): Shared
    requires ValidConfig(cfg) && |s.memory| == cfg.width
  {
    var started := Shared(Some(|s.shared.streams|), s.shared.streams + [[]]);
    var greeted := if cfg.sendsHello then SendWhole(started, Frame(AcceptThread, Hello), true, okHello).shared else started;
    if s.memory[cfg.readyCell] != 0 then SendWhole(greeted, Frame(AcceptThread, Device(s.memory)), true, okDevice).shared else greeted
  }

  /** From Greeting to Probing. */
  lemma HelloRun(cfg: Config, s: State, ok: bool)
    requires ValidConfig(cfg) && Fits(cfg.helloSize) && |s.memory| == cfg.width && s.accept == Greeting(Verify)
    ensures RunFrom(cfg, s, Repeat(AcceptStep(ok), SendLength(s.shared, true, ok)))
         == s.(accept := Probing, shared := SendWhole(s.shared, Frame(AcceptThread, Hello), true, ok).shared)
  {
    AcceptingSteps(cfg, s, true, ok, SendLength(s.shared, true, ok));
    SendWholeIsSteps(s.shared, Frame(AcceptThread, Hello), true, ok);
  }

  /** From Announcing to Serving. */
  lemma AnnounceRun(cfg: Config, s: State, ok: bool)
    requires ValidConfig(cfg) && |s.memory| == cfg.width && s.accept == Announcing(Verify)
    requires s.memory[cfg.sizeCell] == cfg.deviceSize
    ensures RunFrom(cfg, s, Repeat(AcceptStep(ok), SendLength(s.shared, true, ok)))
         == s.(accept := Serving, shared := SendWhole(s.shared, Frame(AcceptThread, Device(s.memory)), true, ok).shared)
  {
    AcceptingSteps(cfg, s, false, ok, SendLength(s.shared, true, ok));
    SendWholeIsSteps(s.shared, Frame(AcceptThread, Device(s.memory)), true, ok);
  }

  /** A client is accepted; nobody else moves. */
  lemma ConnectRun(cfg: Config, s: State)
    requires ValidConfig(cfg) && |s.memory| == cfg.width && s.accept.Waiting?
    ensures RunFrom(cfg, s, [Connect])
         == s.(accept := if cfg.sendsHello then Greeting(Verify) else Probing,
               shared := Shared(Some(|s.shared.streams|), s.shared.streams + [[]]))
  {
  }

  predicate SetsNoDevice(schedule: seq<Action>) {
    forall i :: 0 <= i < |schedule| ==> !schedule[i].SetDevice?
  }

  lemma GreetRun(cfg: Config, s: State, ok: bool) returns (schedule: seq<Action>)
    requires ValidConfig(cfg) && Fits(cfg.helloSize) && |s.memory| == cfg.width && s.accept.Waiting?
    ensures var started := Shared(Some(|s.shared.streams|), s.shared.streams + [[]]);
      RunFrom(cfg, s, schedule)
      == s.(accept := Probing,
            shared := if cfg.sendsHello then SendWhole(started, Frame(AcceptThread, Hello), true, ok).shared else started)
    ensures SetsNoDevice(schedule)
  {
    var s1 := RunFrom(cfg, s, [Connect]);
    if cfg.sendsHello {
      var rest := Repeat(AcceptStep(ok), SendLength(s1.shared, true, ok));
      HelloRun(cfg, s1, ok);
      RunConcat(cfg, s, [Connect], rest);
      schedule := [Connect] + rest;
    } else {
      schedule := [Connect];
    }
  }

  /** The protocol run of an uninterrupted handshake. */
  lemma HandshakeRun(cfg: Config, s: State, okHello: bool, okDevice: bool) returns (schedule: seq<Action>)
    requires ValidConfig(cfg) && Fits(cfg.helloSize) && |s.memory| == cfg.width && s.accept.Waiting?
    requires s.memory[cfg.readyCell] != 0 ==> s.memory[cfg.sizeCell] == cfg.deviceSize
    ensures RunFrom(cfg, s, schedule) == s.(accept := Serving, shared := Handshaken(cfg, s, okHello, okDevice))
  {
    schedule := GreetRun(cfg, s, okHello);
    var s1 := RunFrom(cfg, s, schedule);
    schedule := schedule + [AcceptStep(true)];
    if s.memory[cfg.readyCell] != 0 {
      var n := SendLength(s1.shared, true, okDevice);
      AnnounceRun(cfg, RunFrom(cfg, s, schedule), okDevice);
      RunConcat(cfg, s, schedule, Repeat(AcceptStep(okDevice), n));
      schedule := schedule + Repeat(AcceptStep(okDevice), n);
    }
  }

  // ---- The object -----------------------------------------------------------------------------------

  class SessionServer {
    const cfg: Config
    var shared: Shared
    var memory: seq<int>
    var counter: nat

    ghost predicate Matches(s: State)
      reads this
    {
      && ValidConfig(cfg) && Fits(cfg.helloSize) && Fits(cfg.pingSize)
      && |memory| == cfg.width && s.shared == shared && s.memory == memory && s.counter == counter
    }

    method SendRaw(frame: Frame, headerSize: int, size: int, ok: bool) returns (outcome: Outcome)
      modifies this`shared
      ensures Effect(shared, outcome) == SendWhole(old(shared), frame, headerSize == size, ok)
    {
      if headerSize != size {
        return Crash;
      }
      if shared.handle.None? {
        return Return(false);
      }
      var k := shared.handle.value;
      if !(ok && k < |shared.streams|) {
        shared := shared.(handle := None);
        return Return(false);
      }
      shared := shared.(streams := shared.streams[k := shared.streams[k] + [frame]]);
      outcome := Return(true);
    }

    /** SetDevice: the stores in order, then one Send.  `s` is the protocol state the call starts in. */
    method SetDevice(program: seq<Write>, ok: bool, ghost s: State) returns (ghost schedule: seq<Action>)
      requires Matches(s) && s.window.Idle? && ValidProgram(cfg, program)
      modifies this`shared, this`memory
      ensures memory == Complete(cfg, program)
      ensures Matches(RunFrom(cfg, s, schedule)) && RunFrom(cfg, s, schedule).window.Idle?
    {
      ghost var before := memory;
      assert program[..0] == [];
      for i := 0 to |program|
        invariant memory == Patch(before, program[..i]) && shared == old(shared)
      {
        PatchOne(before, program, i);
        assert [program[i]][..0] == [];
        memory := memory[program[i].cell := program[i].value];
      }
      assert program[..|program|] == program;
      FinishedDevice(cfg, before, program);
      CompleteSize(cfg, program);
      schedule := SetDeviceRun(cfg, s, program, ok);
      var outcome := SendRaw(Frame(WindowThread, Device(memory)), memory[cfg.sizeCell], cfg.deviceSize, ok);
    }

    /** One round of PingLoop: V2 skips it when no client is installed, V1 numbers it all the same. */
    method PingOnce(ok: bool, ghost s: State) returns (ghost schedule: seq<Action>)
      requires Matches(s) && s.ping.Resting?
      modifies this`shared, this`counter
      ensures Matches(RunFrom(cfg, s, schedule)) && RunFrom(cfg, s, schedule).ping.Resting?
      ensures counter == if cfg.skipsIdlePing && old(shared).handle.None? then old(counter) else old(counter) + 1
    {
      schedule := PingRun(cfg, s, ok);
      if cfg.skipsIdlePing && shared.handle.None? {
        return;
      }
      counter := counter + 1;
      var outcome := SendRaw(Frame(PingThread, Ping(counter)), HeaderSize(cfg.pingSize), cfg.pingSize, ok);
    }

    /** AcceptOnce from the accepted client to the read loop. */
    method Handshake(okHello: bool, okDevice: bool, ghost s: State) returns (ghost schedule: seq<Action>)
      requires Matches(s) && s.accept.Waiting? && Sizes(cfg, s)
      modifies this`shared
      ensures Matches(RunFrom(cfg, s, schedule)) && RunFrom(cfg, s, schedule).accept.Serving?
    {
      schedule := HandshakeRun(cfg, s, okHello, okDevice);
      shared := Shared(Some(|shared.streams|), shared.streams + [[]]);
      if cfg.sendsHello {
        var outcome := SendRaw(Frame(AcceptThread, Hello), HeaderSize(cfg.helloSize), cfg.helloSize, okHello);
      }
      if memory[cfg.readyCell] != 0 {
        var outcome := SendRaw(Frame(AcceptThread, Device(memory)), memory[cfg.sizeCell], cfg.deviceSize, okDevice);
      }
    }
  }
}
