/** What every schedule of the session protocol keeps. */
module SessionProofs {
  import opened Basics
  import opened SessionProtocol

  // ---- Shape and sizes ---------------------------------------------------------------------

  /** Only the newest session can be installed. */
  ghost predicate Tidy(s: State) {
    && (s.shared.handle.Some? ==> s.shared.handle.value == |s.shared.streams| - 1)
    && (s.accept.Greeting? ==> |s.shared.streams| > 0)
  }

  /** A half-done SetDevice has made a prefix of its stores; otherwise the latest device is complete. */
  ghost predicate Stored(cfg: Config, s: State)
    requires ValidConfig(cfg)
  {
    && |s.memory| == cfg.width
    && match s.window
       case Writing(program, done, before) =>
         && ValidProgram(cfg, program) && done <= |program| && |before| == cfg.width
         && s.latest == Some(program) && s.memory == Patch(before, program[..done])
       case _ =>
         match s.latest
         case None => s.memory == Blank(cfg)
         case Some(program) => ValidProgram(cfg, program) && s.memory == Complete(cfg, program)
  }

  lemma {:induction false} PatchAgrees(a: seq<int>, b: seq<int>, program: seq<Write>, cell: nat)
    requires |a| == |b| && cell < |a| && WritesCell(program, cell)
    ensures Patch(a, program)[cell] == Patch(b, program)[cell]
    decreases |program|
  {
    var rest := program[..|program| - 1];
    if program[|program| - 1].cell != cell {
      var i :| 0 <= i < |program| && program[i].cell == cell;
      PatchAgrees(a, b, rest, cell);
    }
  }

  /** A program that stores every cell leaves the same device whatever was there before. */
  lemma FinishedDevice(cfg: Config, before: seq<int>, program: seq<Write>)
    requires ValidConfig(cfg) && ValidProgram(cfg, program) && |before| == cfg.width
    ensures Patch(before, program) == Complete(cfg, program)
  {
    forall c: nat | c < cfg.width ensures Patch(before, program)[c] == Complete(cfg, program)[c] {
      PatchAgrees(before, Blank(cfg), program, c);
    }
  }

  lemma PatchOne(before: seq<int>, program: seq<Write>, done: nat)
    requires done < |program|
    ensures Patch(Patch(before, program[..done]), [program[done]]) == Patch(before, program[..done + 1])
  {
    assert program[..done + 1][..done] == program[..done];
  }

  lemma StoredWrite(cfg: Config, s: State)
    requires ValidConfig(cfg) && Stored(cfg, s) && s.window.Writing?
    ensures Stored(cfg, StepWindow(cfg, s, true))
  {
    var p, done := s.window.program, s.window.done;
    if done < |p| {
      PatchOne(s.window.before, p, done);
    } else {
      assert p[..done] == p;
      FinishedDevice(cfg, s.window.before, p);
    }
  }

  lemma StoredStep(cfg: Config, s: State, a: Action)
    requires ValidConfig(cfg) && Stored(cfg, s)
    ensures Stored(cfg, Apply(cfg, s, a))
  {
    if a.WindowStep? && s.window.Writing? {
      StoredWrite(cfg, s);
    } else if a.SetDevice? {
    }
  }

  /** Header sizes: a ready device has the right size, and nobody has crashed for another reason. */
  ghost predicate Sizes(cfg: Config, s: State)
    requires ValidConfig(cfg) && |s.memory| == cfg.width
  {
    && (s.memory[cfg.readyCell] != 0 || s.accept.Announcing? || s.window.SendingDevice?
        || (s.window.Writing? && s.window.done <= |s.window.program|
            && WritesCell(s.window.program[..s.window.done], cfg.sizeCell))
        ==> s.memory[cfg.sizeCell] == cfg.deviceSize)
    && (s.accept.Greeting? ==> cfg.sendsHello)
    && (s.accept.AcceptCrashed? ==> cfg.sendsHello && !Fits(cfg.helloSize))
    && (s.ping.PingCrashed? ==> !Fits(cfg.pingSize))
    && (s.window.WindowCrashed? ==> s.window.oversize >= 0x1_0000_0000)
  }

  lemma SizesWrite(cfg: Config, s: State)
    requires ValidConfig(cfg) && Stored(cfg, s) && Sizes(cfg, s) && s.window.Writing?
    ensures Sizes(cfg, StepWindow(cfg, s, true))
  {
    var p, done := s.window.program, s.window.done;
    if done < |p| {
      assert Patch(s.memory, [p[done]]) == s.memory[p[done].cell := p[done].value];
    } else {
      assert p[..done] == p;
    }
  }

  lemma SizesAccept(cfg: Config, s: State, ok: bool)
    requires ValidConfig(cfg) && Stored(cfg, s) && Sizes(cfg, s)
    ensures Sizes(cfg, StepAccept(cfg, s, ok))
  {
  }

  lemma SizesWindow(cfg: Config, s: State, ok: bool)
    requires ValidConfig(cfg) && Stored(cfg, s) && Sizes(cfg, s)
    ensures Sizes(cfg, StepWindow(cfg, s, ok))
  {
    if s.window.Writing? {
      SizesWrite(cfg, s);
    }
  }

  lemma SizesStep(cfg: Config, s: State, a: Action)
    requires ValidConfig(cfg) && Stored(cfg, s) && Sizes(cfg, s)
    ensures Sizes(cfg, Apply(cfg, s, a))
  {
    match a
    case AcceptStep(ok) => SizesAccept(cfg, s, ok);
    case WindowStep(ok) => SizesWindow(cfg, s, ok);
    case _ =>
  }

  // ---- The device reaches every installed session ----------------------------------------

  function LastDevice(stream: seq<Frame>): (r: Option<seq<int>>)
    decreases |stream|
  {
    if |stream| == 0 then None
    else if stream[|stream| - 1].body.Device? then Some(stream[|stream| - 1].body.cells)
    else LastDevice(stream[..|stream| - 1])
  }

  ghost predicate SettingDevice(s: State) {
    s.window.Writing? || s.window.SendingDevice?
  }

  ghost predicate HandshakeDone(s: State) {
    s.accept.Serving? || s.accept.Waiting?
  }

  ghost predicate DeviceKnown(cfg: Config, s: State)
    requires ValidConfig(cfg) && |s.memory| == cfg.width && Tidy(s)
  {
    s.shared.handle.Some? && HandshakeDone(s) && !SettingDevice(s) && s.memory[cfg.readyCell] != 0
    ==> LastDevice(s.shared.streams[s.shared.handle.value]) == Some(s.memory)
  }

  lemma DeviceStep(cfg: Config, s: State, a: Action)
    requires ValidConfig(cfg) && |s.memory| == cfg.width && Tidy(s) && Sizes(cfg, s) && DeviceKnown(cfg, s)
    ensures Tidy(Apply(cfg, s, a)) && DeviceKnown(cfg, Apply(cfg, s, a))
  {
  }

  // ---- Ping numbers ------------------------------------------------------------------------

  function PingNumbers(stream: seq<Frame>): (r: seq<nat>)
    decreases |stream|
  {
    if |stream| == 0 then []
    else
      var f := stream[|stream| - 1].body;
      PingNumbers(stream[..|stream| - 1]) + (if f.Ping? then [f.number] else [])
  }

  /** The ping numbers delivered over all sessions, in session order. */
  function AllPings(streams: seq<seq<Frame>>): (r: seq<nat>)
    decreases |streams|
  {
    if |streams| == 0 then []
    else AllPings(streams[..|streams| - 1]) + PingNumbers(streams[|streams| - 1])
  }

  /** The numbers (from 1) of the pings whose send succeeded. */
  function DeliveredNumbers(fates: seq<Fate>): (r: seq<nat>)
    decreases |fates|
  {
    if |fates| == 0 then []
    else DeliveredNumbers(fates[..|fates| - 1]) + (if fates[|fates| - 1].Delivered? then [|fates|] else [])
  }

  ghost predicate PingsAgree(cfg: Config, s: State) {
    && |s.fates| == s.counter
    && AllPings(s.shared.streams) == DeliveredNumbers(s.fates)
    && (s.ping.Pinging? ==> s.counter > 0 && s.ping.number == s.counter && s.fates[s.counter - 1].InFlight?)
    && (!cfg.skipsIdlePing ==> s.ticks == s.counter + (if s.ping.Counting? then 1 else 0))
  }

  lemma PingsSend(shared: Shared, frame: Frame, sizeMatches: bool, at: SendPc, ok: bool)
    requires shared.handle.Some? ==> shared.handle.value == |shared.streams| - 1
    ensures var e := SendStep(shared, frame, sizeMatches, at, ok);
      AllPings(e.shared.streams)
      == if e.outcome == Return(true) && frame.body.Ping? then AllPings(shared.streams) + [frame.body.number] else AllPings(shared.streams)
  {
  }

  lemma FatesStart(fates: seq<Fate>)
    ensures DeliveredNumbers(fates + [InFlight]) == DeliveredNumbers(fates)
  {
  }

  lemma FatesSettle(fates: seq<Fate>, delivered: bool)
    requires |fates| > 0 && fates[|fates| - 1].InFlight?
    ensures DeliveredNumbers(fates[..|fates| - 1] + [if delivered then Delivered else Lost])
         == if delivered then DeliveredNumbers(fates) + [|fates|] else DeliveredNumbers(fates)
  {
  }

  /** What a step of the ping's SendRaw does to the parts that PingsAgree speaks of. */
  lemma PingMoves(cfg: Config, s: State, ok: bool)
    requires s.ping.Pinging? && |s.fates| > 0
    ensures var e, s' := SendStep(s.shared, Frame(PingThread, Ping(s.ping.number)), Fits(cfg.pingSize), s.ping.at, ok), StepPing(cfg, s, ok);
      && s'.shared == e.shared && s'.counter == s.counter && s'.ticks == s.ticks && !s'.ping.Counting?
      && (s'.ping.Pinging? <==> e.outcome.Continue?) && (s'.ping.Pinging? ==> s'.ping.number == s.ping.number)
      && s'.fates == if e.outcome.Return? then s.fates[..|s.fates| - 1] + [if e.outcome.delivered then Delivered else Lost] else s.fates
  {
  }

  lemma {:induction false} PingsSending(cfg: Config, s: State, ok: bool)
    requires Tidy(s) && PingsAgree(cfg, s) && s.ping.Pinging?
    ensures PingsAgree(cfg, StepPing(cfg, s, ok))
  {
    var f := Frame(PingThread, Ping(s.ping.number));
    var o := SendStep(s.shared, f, Fits(cfg.pingSize), s.ping.at, ok).outcome;
    PingMoves(cfg, s, ok);
    PingsSend(s.shared, f, Fits(cfg.pingSize), s.ping.at, ok);
    if o.Return? {
      FatesSettle(s.fates, o.delivered);
    }
  }

  lemma {:induction false} PingsThread(cfg: Config, s: State, ok: bool)
    requires Tidy(s) && PingsAgree(cfg, s)
    ensures PingsAgree(cfg, StepPing(cfg, s, ok))
  {
    if s.ping.Counting? {
      FatesStart(s.fates);
    } else if s.ping.Pinging? {
      PingsSending(cfg, s, ok);
    }
  }

  /** The accept thread never delivers a ping. */
  lemma {:induction false} PingsAccept(cfg: Config, s: State, ok: bool)
    requires ValidConfig(cfg) && |s.memory| == cfg.width && Tidy(s) && PingsAgree(cfg, s)
    ensures PingsAgree(cfg, StepAccept(cfg, s, ok))
  {
    if s.accept.Greeting? {
      PingsSend(s.shared, Frame(AcceptThread, Hello), Fits(cfg.helloSize), s.accept.at, ok);
    } else if s.accept.Announcing? {
      PingsSend(s.shared, Frame(AcceptThread, Device(s.memory)), s.memory[cfg.sizeCell] == cfg.deviceSize, s.accept.at, ok);
    }
  }

  /** The window thread never delivers a ping. */
  lemma {:induction false} PingsWindow(cfg: Config, s: State, ok: bool)
    requires ValidConfig(cfg) && |s.memory| == cfg.width && Tidy(s) && PingsAgree(cfg, s)
    ensures PingsAgree(cfg, StepWindow(cfg, s, ok))
  {
    var w := s.window;
    if w.SendingDevice? {
      PingsSend(s.shared, Frame(WindowThread, Device(s.memory)), s.memory[cfg.sizeCell] == cfg.deviceSize, w.at, ok);
    } else if w.Reporting? {
      PingsSend(s.shared, Frame(WindowThread, Message(w.words)), Fits(w.length), w.at, ok);
    }
  }

  lemma AllPingsConnect(streams: seq<seq<Frame>>)
    ensures AllPings(streams + [[]]) == AllPings(streams)
  {
    assert (streams + [[]])[..|streams|] == streams;
  }

  lemma {:induction false} PingsConnect(cfg: Config, s: State)
    requires ValidConfig(cfg) && |s.memory| == cfg.width && PingsAgree(cfg, s)
    ensures PingsAgree(cfg, Apply(cfg, s, Connect))
  {
    AllPingsConnect(s.shared.streams);
  }

  lemma {:induction false} PingsStep(cfg: Config, s: State, a: Action)
    requires ValidConfig(cfg) && |s.memory| == cfg.width && Tidy(s) && PingsAgree(cfg, s)
    ensures PingsAgree(cfg, Apply(cfg, s, a))
  {
    match a
    case Connect => PingsConnect(cfg, s);
    case AcceptStep(ok) => PingsAccept(cfg, s, ok);
    case PingStep(ok) => PingsThread(cfg, s, ok);
    case WindowStep(ok) => PingsWindow(cfg, s, ok);
    case Disconnect(_) =>
    case PingTick =>
    case SetDevice(_) =>
    case Report(_, _) =>
  }

  // ---- Handshake order ---------------------------------------------------------------------

  ghost predicate Greeted(stream: seq<Frame>) {
    exists i :: 0 <= i < |stream| && stream[i].body.Hello?
  }

  /** At most one Hello; it precedes the accept thread's device; it comes first unless a frame got in early. */
  ghost predicate Orderly(stream: seq<Frame>, early: bool) {
    && (forall i, j :: 0 <= i < j < |stream| ==> !(stream[i].body.Hello? && stream[j].body.Hello?))
    && (forall j :: 0 <= j < |stream| && stream[j].body.Device? && stream[j].sender.AcceptThread? ==> Greeted(stream[..j]))
    && (|stream| > 0 ==> (stream[0].body.Hello? <==> !early))
  }

  ghost predicate HandshakeOrder(s: State) {
    var n := |s.shared.streams|;
    && (forall k :: 0 <= k < n ==> Orderly(s.shared.streams[k], k in s.early))
    && (forall k :: k in s.early ==> 0 <= k < n)
    && (if s.accept.Greeting?
        then n > 0 && !Greeted(s.shared.streams[n - 1]) && (s.shared.streams[n - 1] == [] <==> n - 1 !in s.early)
        else s.shared.handle.Some? ==> n > 0 && Greeted(s.shared.streams[n - 1]))
  }

  lemma OrderlyAppend(stream: seq<Frame>, f: Frame, early: bool, early': bool)
    requires Orderly(stream, early)
    requires f.body.Hello? ==> !Greeted(stream)
    requires f.body.Device? && f.sender.AcceptThread? ==> Greeted(stream)
    requires if stream == [] then f.body.Hello? <==> !early' else early' == early
    ensures Orderly(stream + [f], early')
    ensures Greeted(stream + [f]) <==> Greeted(stream) || f.body.Hello?
  {
    var t := stream + [f];
    if Greeted(stream) {
      var i :| 0 <= i < |stream| && stream[i].body.Hello?;
      assert t[i].body.Hello?;
    } else if f.body.Hello? {
      assert t[|stream|].body.Hello?;
    }
  }

  /** One SendRaw step by any thread keeps the order of the session's frames. */
  lemma HandshakeSend(s: State, frame: Frame, sizeMatches: bool, at: SendPc, ok: bool, s': State)
    requires HandshakeOrder(s) && Tidy(s)
    requires frame.body.Hello? ==> s.accept.Greeting? && sizeMatches
    requires frame.body.Device? && frame.sender.AcceptThread? ==> !s.accept.Greeting?
    requires var e := SendStep(s.shared, frame, sizeMatches, at, ok);
      && s'.shared == e.shared
      && s'.early == (if frame.body.Hello? then s.early else Early(s, e))
      && (s'.accept.Greeting? <==> s.accept.Greeting? && (frame.body.Hello? ==> e.outcome.Continue?))
    ensures HandshakeOrder(s')
  {
    var e := SendStep(s.shared, frame, sizeMatches, at, ok);
    var n := |s.shared.streams|;
    if e.outcome == Return(true) {
      OrderlyAppend(s.shared.streams[n - 1], frame, n - 1 in s.early, n - 1 in s'.early);
    }
  }

  lemma HandshakeAccept(cfg: Config, s: State, ok: bool)
    requires ValidConfig(cfg) && Fits(cfg.helloSize) && |s.memory| == cfg.width && Tidy(s) && HandshakeOrder(s)
    ensures HandshakeOrder(StepAccept(cfg, s, ok))
  {
    var s' := StepAccept(cfg, s, ok);
    if s.accept.Greeting? {
      HandshakeSend(s, Frame(AcceptThread, Hello), Fits(cfg.helloSize), s.accept.at, ok, s');
    } else if s.accept.Announcing? {
      var f := Frame(AcceptThread, Device(s.memory));
      HandshakeSend(s, f, s.memory[cfg.sizeCell] == cfg.deviceSize, s.accept.at, ok, s');
    }
  }

  lemma HandshakePing(cfg: Config, s: State, ok: bool)
    requires Tidy(s) && HandshakeOrder(s)
    ensures HandshakeOrder(StepPing(cfg, s, ok))
  {
    if s.ping.Pinging? {
      HandshakeSend(s, Frame(PingThread, Ping(s.ping.number)), Fits(cfg.pingSize), s.ping.at, ok, StepPing(cfg, s, ok));
    }
  }

  lemma HandshakeWindow(cfg: Config, s: State, ok: bool)
    requires ValidConfig(cfg) && |s.memory| == cfg.width && Tidy(s) && HandshakeOrder(s)
    ensures HandshakeOrder(StepWindow(cfg, s, ok))
  {
    var w, s' := s.window, StepWindow(cfg, s, ok);
    if w.SendingDevice? {
      HandshakeSend(s, Frame(WindowThread, Device(s.memory)), s.memory[cfg.sizeCell] == cfg.deviceSize, w.at, ok, s');
    } else if w.Reporting? {
      HandshakeSend(s, Frame(WindowThread, Message(w.words)), Fits(w.length), w.at, ok, s');
    }
  }

  lemma HandshakeStep(cfg: Config, s: State, a: Action)
    requires ValidConfig(cfg) && cfg.sendsHello && Fits(cfg.helloSize) && |s.memory| == cfg.width && Tidy(s) && HandshakeOrder(s)
    ensures HandshakeOrder(Apply(cfg, s, a))
  {
    match a
    case AcceptStep(ok) => HandshakeAccept(cfg, s, ok);
    case PingStep(ok) => HandshakePing(cfg, s, ok);
    case WindowStep(ok) => HandshakeWindow(cfg, s, ok);
    case _ =>
  }

  // ---- Theorems over every schedule --------------------------------------------------------

  lemma {:induction false} Reachable(cfg: Config, schedule: seq<Action>)
    requires ValidConfig(cfg)
    ensures var s := Run(cfg, schedule);
      && Tidy(s) && Stored(cfg, s) && Sizes(cfg, s) && DeviceKnown(cfg, s) && PingsAgree(cfg, s)
      && (cfg.sendsHello && Fits(cfg.helloSize) ==> HandshakeOrder(s))
    decreases |schedule|
  {
    if |schedule| > 0 {
      var rest, a := schedule[..|schedule| - 1], schedule[|schedule| - 1];
      var s := Run(cfg, rest);
      Reachable(cfg, rest);
      StoredStep(cfg, s, a);
      SizesStep(cfg, s, a);
      DeviceStep(cfg, s, a);
      PingsStep(cfg, s, a);
      if cfg.sendsHello && Fits(cfg.helloSize) {
        HandshakeStep(cfg, s, a);
      }
    }
  }

  /**
    No lost device.  Whenever SetDevice is idle, the handshake is finished and the session's handle
    is still installed, the last DeviceInfo that session received is the complete latest device.
   */
  lemma NoLostDevice(cfg: Config, schedule: seq<Action>, program: seq<Write>, session: nat)
    requires ValidConfig(cfg)
    requires var s := Run(cfg, schedule);
      s.latest == Some(program) && s.shared.handle == Some(session) && HandshakeDone(s) && !SettingDevice(s)
    ensures var s := Run(cfg, schedule);
      && s.memory == Complete(cfg, program)
      && session < |s.shared.streams|
      && LastDevice(s.shared.streams[session]) == Some(Complete(cfg, program))
  {
    Reachable(cfg, schedule);
  }

  /** Half-written or outdated devices are only ever sent while SetDevice is under way. */
  lemma NoStaleDevice(cfg: Config, schedule: seq<Action>, a: Action, program: seq<Write>, session: nat)
    requires ValidConfig(cfg)
    requires var s := Run(cfg, schedule);
      s.latest == Some(program) && !SettingDevice(s) && session < |s.shared.streams|
    ensures var s, s' := Run(cfg, schedule), Apply(cfg, Run(cfg, schedule), a);
      && session < |s'.shared.streams|
      && var t := s'.shared.streams[session];
         t == s.shared.streams[session]
         || (|t| == |s.shared.streams[session]| + 1 && t[..|t| - 1] == s.shared.streams[session]
             && (t[|t| - 1].body.Device? ==> t[|t| - 1].body.cells == Complete(cfg, program)))
  {
    Reachable(cfg, schedule);
  }

  /** The header check of SendRaw never fires for a DeviceInfo, nor for any message below 2^32 bytes. */
  lemma SizeCheckNeverFires(cfg: Config, schedule: seq<Action>)
    requires ValidConfig(cfg)
    ensures var s := Run(cfg, schedule);
      && (s.accept.AcceptCrashed? ==> cfg.sendsHello && cfg.helloSize >= 0x1_0000_0000)
      && (s.ping.PingCrashed? ==> cfg.pingSize >= 0x1_0000_0000)
      && (s.window.WindowCrashed? ==> s.window.oversize >= 0x1_0000_0000)
  {
    Reachable(cfg, schedule);
  }

  ghost predicate AcceptThrows(cfg: Config, schedule: seq<Action>)
    requires ValidConfig(cfg)
  {
    Run(cfg, schedule).accept.AcceptCrashed?
  }

  ghost predicate PingThrows(cfg: Config, schedule: seq<Action>)
    requires ValidConfig(cfg)
  {
    Run(cfg, schedule).ping.PingCrashed?
  }

  lemma RunTwo(cfg: Config, a: Action, b: Action)
    requires ValidConfig(cfg)
    ensures Run(cfg, [a, b]) == Apply(cfg, Apply(cfg, Init(cfg), a), b)
  {
    var none: seq<Action> := [];
    RunThen(cfg, Init(cfg), none, a);
    RunThen(cfg, Init(cfg), none + [a], b);
    assert none + [a] + [b] == [a, b];
  }

  lemma HelloTooLong(cfg: Config)
    requires ValidConfig(cfg) && cfg.sendsHello && cfg.helloSize >= 0x1_0000_0000
    ensures AcceptThrows(cfg, [Connect, AcceptStep(true)])
  {
    RunTwo(cfg, Connect, AcceptStep(true));
  }

  lemma TickedOnce(cfg: Config)
    requires ValidConfig(cfg)
    ensures Run(cfg, [Connect, PingTick]).ping.Counting?
  {
    RunTwo(cfg, Connect, PingTick);
  }

  lemma LongPingThrows(cfg: Config, s: State)
    requires s.ping.Counting? && cfg.pingSize >= 0x1_0000_0000
    ensures StepPing(cfg, StepPing(cfg, s, true), true).ping.PingCrashed?
  {
  }

  lemma PingTooLong(cfg: Config) returns (schedule: seq<Action>)
    requires ValidConfig(cfg) && cfg.pingSize >= 0x1_0000_0000
    ensures PingThrows(cfg, schedule)
  {
    var ticked, s0 := [Connect, PingTick], Init(cfg);
    TickedOnce(cfg);
    LongPingThrows(cfg, Run(cfg, ticked));
    RunThen(cfg, s0, ticked, PingStep(true));
    RunThen(cfg, s0, ticked + [PingStep(true)], PingStep(true));
    schedule := ticked + [PingStep(true)] + [PingStep(true)];
  }

  /** Some schedule makes the check fire for Hello, or for a ping, exactly when that struct does not fit the size field. */
  lemma SizeCheckIff(cfg: Config)
    requires ValidConfig(cfg)
    ensures (exists schedule :: AcceptThrows(cfg, schedule)) <==> cfg.sendsHello && cfg.helloSize >= 0x1_0000_0000
    ensures (exists schedule :: PingThrows(cfg, schedule)) <==> cfg.pingSize >= 0x1_0000_0000
  {
    forall schedule
      ensures AcceptThrows(cfg, schedule) ==> cfg.sendsHello && cfg.helloSize >= 0x1_0000_0000
      ensures PingThrows(cfg, schedule) ==> cfg.pingSize >= 0x1_0000_0000
    {
      SizeCheckNeverFires(cfg, schedule);
    }
    if cfg.sendsHello && cfg.helloSize >= 0x1_0000_0000 {
      HelloTooLong(cfg);
    }
    if cfg.pingSize >= 0x1_0000_0000 {
      var schedule := PingTooLong(cfg);
    }
  }

  lemma AnnouncedSize(cfg: Config, schedule: seq<Action>)
    requires ValidConfig(cfg) && Run(cfg, schedule).accept.Announcing?
    ensures Run(cfg, schedule).memory[cfg.sizeCell] == cfg.deviceSize
  {
    Reachable(cfg, schedule);
  }

  /** The only mismatch: a debug message whose total length does not fit the 32-bit size field. */
  lemma SizeCheckFiresIff(cfg: Config, schedule: seq<Action>, words: seq<int>, length: nat, ok: bool)
    requires ValidConfig(cfg) && Run(cfg, schedule).window.Idle?
    ensures Run(cfg, schedule + [Report(words, length), WindowStep(ok)]).window.WindowCrashed?
       <==> length >= 0x1_0000_0000
  {
    var s := Run(cfg, schedule);
    RunThen(cfg, Init(cfg), schedule, Report(words, length));
    RunThen(cfg, Init(cfg), schedule + [Report(words, length)], WindowStep(ok));
    assert schedule + [Report(words, length), WindowStep(ok)] == (schedule + [Report(words, length)]) + [WindowStep(ok)];
  }

  ghost predicate Increasing(s: seq<nat>) {
    forall i, j :: 0 <= i < j < |s| ==> s[i] < s[j]
  }

  lemma {:induction false} DeliveredMembers(fates: seq<Fate>, n: nat)
    ensures n in DeliveredNumbers(fates) <==> 1 <= n <= |fates| && fates[n - 1].Delivered?
    decreases |fates|
  {
    if |fates| > 0 {
      DeliveredMembers(fates[..|fates| - 1], n);
    }
  }

  lemma {:induction false} DeliveredIncreasing(fates: seq<Fate>)
    ensures Increasing(DeliveredNumbers(fates))
    decreases |fates|
  {
    if |fates| > 0 {
      var rest := fates[..|fates| - 1];
      var numbers := DeliveredNumbers(rest);
      DeliveredIncreasing(rest);
      forall i | 0 <= i < |numbers| ensures numbers[i] < |fates| {
        DeliveredMembers(rest, numbers[i]);
      }
    }
  }

  /**
    Ping numbers over all sessions strictly increase and leave out exactly the sends that failed or
    are still under way.  A server that does not skip idle ticks numbers every tick.
   */
  lemma PingNumbering(cfg: Config, schedule: seq<Action>)
    requires ValidConfig(cfg)
    ensures var s := Run(cfg, schedule);
      && Increasing(AllPings(s.shared.streams))
      && |s.fates| == s.counter
      && (forall n: nat :: n in AllPings(s.shared.streams) <==> 1 <= n <= s.counter && s.fates[n - 1].Delivered?)
      && (!cfg.skipsIdlePing && !s.ping.Counting? ==> s.counter == s.ticks)
  {
    Reachable(cfg, schedule);
    var s := Run(cfg, schedule);
    DeliveredIncreasing(s.fates);
    forall n: nat ensures n in AllPings(s.shared.streams) <==> 1 <= n <= s.counter && s.fates[n - 1].Delivered? {
      DeliveredMembers(s.fates, n);
    }
  }

  /** Each session: at most one Hello, before the accept thread's device, first iff no frame got in early. */
  lemma HelloOrder(cfg: Config, schedule: seq<Action>, session: nat)
    requires ValidConfig(cfg) && cfg.sendsHello && session < |Run(cfg, schedule).shared.streams|
    ensures var s := Run(cfg, schedule); Fits(cfg.helloSize) ==> Orderly(s.shared.streams[session], session in s.early)
  {
    Reachable(cfg, schedule);
  }

  // ---- Composing schedules -------------------------------------------------------------------

  lemma RunThen(cfg: Config, s: State, schedule: seq<Action>, a: Action)
    requires ValidConfig(cfg) && |s.memory| == cfg.width
    ensures RunFrom(cfg, s, schedule + [a]) == Apply(cfg, RunFrom(cfg, s, schedule), a)
  {
  }

  lemma {:induction false} RunConcat(cfg: Config, s: State, first: seq<Action>, second: seq<Action>)
    requires ValidConfig(cfg) && |s.memory| == cfg.width
    ensures RunFrom(cfg, s, first + second) == RunFrom(cfg, RunFrom(cfg, s, first), second)
    decreases |second|
  {
    if |second| == 0 {
      assert first + second == first;
    } else {
      var rest := second[..|second| - 1];
      RunConcat(cfg, s, first, rest);
      assert first + second == (first + rest) + [second[|second| - 1]];
    }
  }

  function Repeat(a: Action, n: nat): seq<Action> {
    seq(n, _ => a)
  }

  lemma RunOneMore(cfg: Config, s: State, a: Action, n: nat)
    requires ValidConfig(cfg) && |s.memory| == cfg.width
    ensures RunFrom(cfg, s, Repeat(a, n + 1)) == Apply(cfg, RunFrom(cfg, s, Repeat(a, n)), a)
  {
    assert Repeat(a, n + 1) == Repeat(a, n) + [a];
  }

  function WindowSteps(cfg: Config, s: State, ok: bool, n: nat): (s': State)
    requires ValidConfig(cfg) && |s.memory| == cfg.width
    ensures |s'.memory| == cfg.width
  {
    if n == 0 then s else StepWindow(cfg, WindowSteps(cfg, s, ok, n - 1), ok)
  }

  lemma {:induction false} WindowAlone(cfg: Config, s: State, ok: bool, n: nat)
    requires ValidConfig(cfg) && |s.memory| == cfg.width
    ensures RunFrom(cfg, s, Repeat(WindowStep(ok), n)) == WindowSteps(cfg, s, ok, n)
  {
    if n > 0 {
      WindowAlone(cfg, s, ok, n - 1);
      RunOneMore(cfg, s, WindowStep(ok), n - 1);
    }
  }

  /** SetDevice has made its first k stores since `start`; nothing else has moved. */
  ghost predicate StoringAt(s: State, start: State, program: seq<Write>, k: nat, before: seq<int>) {
    k <= |program| && s == start.(memory := Patch(before, program[..k]), window := Writing(program, k, before))
  }

  lemma StoreMade(cfg: Config, s: State, start: State, program: seq<Write>, k: nat, before: seq<int>)
    requires ValidConfig(cfg) && |before| == cfg.width && k < |program| && StoringAt(s, start, program, k, before)
    ensures StoringAt(StepWindow(cfg, s, true), start, program, k + 1, before)
  {
    PatchOne(before, program, k);
  }

  lemma {:induction false} StoresCount(cfg: Config, s: State, program: seq<Write>, done: nat, n: nat, before: seq<int>)
    requires ValidConfig(cfg) && |s.memory| == cfg.width && |before| == cfg.width && done + n <= |program|
    requires StoringAt(s, s, program, done, before)
    ensures StoringAt(WindowSteps(cfg, s, true, n), s, program, done + n, before)
  {
    if n > 0 {
      StoresCount(cfg, s, program, done, n - 1, before);
      StoreMade(cfg, WindowSteps(cfg, s, true, n - 1), s, program, done + n - 1, before);
    }
  }

  /** From `done` stores to `done + n`. */
  lemma StoresMade(cfg: Config, s: State, program: seq<Write>, done: nat, n: nat, before: seq<int>)
    requires ValidConfig(cfg) && |s.memory| == cfg.width && |before| == cfg.width && done + n <= |program|
    requires StoringAt(s, s, program, done, before)
    ensures StoringAt(RunFrom(cfg, s, Repeat(WindowStep(true), n)), s, program, done + n, before)
  {
    StoresCount(cfg, s, program, done, n, before);
    WindowAlone(cfg, s, true, n);
  }

  lemma {:induction false} StoredLast(memory: seq<int>, program: seq<Write>, cell: nat, value: int)
    requires cell < |memory| && WritesCell(program, cell)
    requires forall i :: 0 <= i < |program| && program[i].cell == cell ==> program[i].value == value
    ensures Patch(memory, program)[cell] == value
    decreases |program|
  {
    var rest := program[..|program| - 1];
    if program[|program| - 1].cell != cell {
      var i :| 0 <= i < |program| && program[i].cell == cell;
      assert rest[i].cell == cell;
      StoredLast(memory, rest, cell, value);
    }
  }

  /** A complete device carries the right size. */
  lemma CompleteSize(cfg: Config, program: seq<Write>)
    requires ValidConfig(cfg) && ValidProgram(cfg, program)
    ensures Complete(cfg, program)[cfg.sizeCell] == cfg.deviceSize
  {
    StoredLast(Blank(cfg), program, cfg.sizeCell, cfg.deviceSize);
  }
}
