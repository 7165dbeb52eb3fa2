/**
  The session protocol that V1Server and V2Server both follow.

  Three threads share the client handle (`mPipe` / `mClientSocket`) and the stored device message
  (`mV1Device` / `mDevice`) without a lock.  The model is a state machine whose actions are the
  atomic steps of those threads, interleaved in any order (sequential consistency is assumed).
  An action that is not enabled changes nothing, so every sequence of actions is a schedule.

  The two servers differ only in the constants gathered in `Config` and in the list of memory
  writes that `SetDevice` performs.
 */
module SessionProtocol {
  import opened Basics

  // ---- Stored device message -------------------------------------------------------------

  /** One store into the device message. */
  datatype Write = Write(cell: nat, value: int)

  function Patch(memory: seq<int>, program: seq<Write>): (r: seq<int>)
    ensures |r| == |memory|
    decreases |program|
  {
    if |program| == 0 then memory
    else
      var last := program[|program| - 1];
      var m := Patch(memory, program[..|program| - 1]);
      if last.cell < |m| then m[last.cell := last.value] else m
  }

  predicate WritesCell(program: seq<Write>, cell: nat) {
    exists i :: 0 <= i < |program| && program[i].cell == cell
  }

  /**
    `readyCell` is what the accept thread tests before it sends the device (the optional's engaged
    flag in V2, `isValid` in V1); `sizeCell` is the header's size field.  The last sizes are those
    of the Hello and Ping structs.
   */
  datatype Config = Config(
    width: nat, readyCell: nat, sizeCell: nat, deviceSize: nat, helloSize: nat, pingSize: nat,
    sendsHello: bool, skipsIdlePing: bool, alwaysClears: bool)

  predicate ValidConfig(cfg: Config) {
    cfg.readyCell < cfg.width && cfg.sizeCell < cfg.width && cfg.readyCell != cfg.sizeCell
  }

  function Blank(cfg: Config): (m: seq<int>) {
    seq(cfg.width, _ => 0)
  }

  /** The device message once every store of `program` has been made. */
  function Complete(cfg: Config, program: seq<Write>): (m: seq<int>) {
    Patch(Blank(cfg), program)
  }

  /**
    What a `SetDevice` body guarantees: it stores every cell, never stores a wrong size, never
    marks the device ready before it has stored the size, and leaves it ready.
   */
  predicate ValidProgram(cfg: Config, program: seq<Write>)
    requires ValidConfig(cfg)
  {
    && (forall i :: 0 <= i < |program| ==> program[i].cell < cfg.width)
    && (forall c: nat :: c < cfg.width ==> WritesCell(program, c))
    && (forall i :: 0 <= i < |program| && program[i].cell == cfg.sizeCell ==> program[i].value == cfg.deviceSize)
    && (forall i :: 0 <= i < |program| && program[i].cell == cfg.readyCell && program[i].value != 0
         ==> WritesCell(program[..i], cfg.sizeCell))
    && Complete(cfg, program)[cfg.readyCell] != 0
  }

  // ---- Frames and the shared client handle -----------------------------------------------

  datatype Thread = AcceptThread | PingThread | WindowThread

  datatype Body =
    | Hello
    | Device(cells: seq<int>)
    | Ping(number: nat)
    | Message(words: seq<int>)   // State, or the text of a debug message

  datatype Frame = Frame(sender: Thread, body: Body)

  /**
    Sessions are numbered in the order they are accepted.  `handle` is the session whose socket or
    pipe is installed; the operating-system handle of any other session has been closed.
    `streams[k]` holds the frames delivered to session k.
   */
  datatype Shared = Shared(handle: Option<nat>, streams: seq<seq<Frame>>)

  /** The header's size field is a uint32_t; SendRaw compares it with the length it is given. */
  function HeaderSize(length: nat): nat {
    length % 0x1_0000_0000
  }

  predicate Fits(length: nat) {
    HeaderSize(length) == length
  }

  // ---- SendRaw ---------------------------------------------------------------------------

  /** Where a thread is inside `SendRaw`. */
  datatype SendPc = Verify | Test | Fetch | Transmit(target: Option<nat>) | Failed

  datatype Outcome = Continue(at: SendPc) | Return(delivered: bool) | Crash

  datatype Effect = Effect(shared: Shared, outcome: Outcome)

  /**
    One atomic step of `SendRaw`.  `sizeMatches` is the header check, `ok` the answer of the
    operating system.  A send on a handle that is no longer installed fails: it is closed.
    The failure path resets whatever handle is installed by then.
   */
  function SendStep(shared: Shared, frame: Frame, sizeMatches: bool, at: SendPc, ok: bool): Effect {
    match at
    case Verify => Effect(shared, if sizeMatches then Continue(Test) else Crash)
    case Test => Effect(shared, if shared.handle.None? then Return(false) else Continue(Fetch))
    case Fetch => Effect(shared, Continue(Transmit(shared.handle)))
    case Transmit(target) =>
      if ok && target.Some? && target == shared.handle && target.value < |shared.streams| then
        var k := target.value;
        Effect(shared.(streams := shared.streams[k := shared.streams[k] + [frame]]), Return(true))
      else
        Effect(shared, Continue(Failed))
    case Failed => Effect(shared.(handle := None), Return(false))
  }

  // ---- The three threads -----------------------------------------------------------------

  datatype AcceptPc =
    | Waiting                     // blocked in accept / ConnectNamedPipe
    | Greeting(at: SendPc)        // sending Hello
    | Probing                     // about to test for a stored device
    | Announcing(at: SendPc)      // sending the stored device
    | Serving                     // handshake finished
    | AcceptCrashed

  datatype PingPc = Resting | Counting | Pinging(number: nat, at: SendPc) | PingCrashed

  datatype WindowPc =
    | Idle
    | Writing(program: seq<Write>, done: nat, before: seq<int>)   // inside SetDevice
    | SendingDevice(at: SendPc)
    | Reporting(words: seq<int>, length: nat, at: SendPc)         // SetState, SendDebugMessage
    | WindowCrashed(oversize: nat)

  datatype Fate = InFlight | Delivered | Lost

  /**
    `latest`, `fates`, `ticks` and `early` are history: the last program `SetDevice` was called
    with, what became of each numbered ping, how often the ping timer fired, and the sessions in
    which another thread delivered a frame while Hello was still being sent.
   */
  datatype State = State(
    shared: Shared, memory: seq<int>,
    accept: AcceptPc, ping: PingPc, window: WindowPc, counter: nat,
    latest: Option<seq<Write>>, fates: seq<Fate>, ticks: nat, early: set<int>)

  function Init(cfg: Config): State {
    State(Shared(None, []), Blank(cfg), Waiting, Resting, Idle, 0, None, [], 0, {})
  }

  datatype Action =
    | Connect                                   // accept returns a client, the handle is published
    | AcceptStep(ok: bool)
    | Disconnect(clears: bool)                  // AcceptOnce returns
    | PingTick
    | PingStep(ok: bool)
    | SetDevice(program: seq<Write>)
    | Report(words: seq<int>, length: nat)
    | WindowStep(ok: bool)

  function Early(s: State, e: Effect): set<int> {
    if e.outcome == Return(true) && s.accept.Greeting? then s.early + {|s.shared.streams| - 1} else s.early
  }

  function StepAccept(cfg: Config, s: State, ok: bool): State
    requires ValidConfig(cfg) && |s.memory| == cfg.width
  {
    match s.accept
    case Greeting(at) =>
      var e := SendStep(s.shared, Frame(AcceptThread, Hello), Fits(cfg.helloSize), at, ok);
      s.(shared := e.shared,
         accept := match e.outcome case Continue(n) => Greeting(n) case Return(_) => Probing case Crash => AcceptCrashed)
    case Probing =>
      s.(accept := if s.memory[cfg.readyCell] != 0 then Announcing(Verify) else Serving)
    case Announcing(at) =>
      var e := SendStep(s.shared, Frame(AcceptThread, Device(s.memory)), s.memory[cfg.sizeCell] == cfg.deviceSize, at, ok);
      s.(shared := e.shared,
         accept := match e.outcome case Continue(n) => Announcing(n) case Return(_) => Serving case Crash => AcceptCrashed)
    case _ => s
  }

  function StepPing(cfg: Config, s: State, ok: bool): State {
    match s.ping
    case Counting =>
      s.(counter := s.counter + 1, fates := s.fates + [InFlight], ping := Pinging(s.counter + 1, Verify))
    case Pinging(number, at) =>
      var e := SendStep(s.shared, Frame(PingThread, Ping(number)), Fits(cfg.pingSize), at, ok);
      s.(shared := e.shared, early := Early(s, e),
         ping := match e.outcome case Continue(n) => Pinging(number, n) case Return(_) => Resting case Crash => PingCrashed,
         fates := match e.outcome
                  case Return(d) => if |s.fates| > 0 then s.fates[..|s.fates| - 1] + [if d then Delivered else Lost] else s.fates
                  case _ => s.fates)
    case _ => s
  }

  function StepWindow(cfg: Config, s: State, ok: bool): State
    requires ValidConfig(cfg) && |s.memory| == cfg.width
  {
    match s.window
    case Writing(program, done, before) =>
      if done < |program| then
        s.(memory := Patch(s.memory, [program[done]]), window := Writing(program, done + 1, before))
      else
        s.(window := SendingDevice(Verify))
    case SendingDevice(at) =>
      var e := SendStep(s.shared, Frame(WindowThread, Device(s.memory)), s.memory[cfg.sizeCell] == cfg.deviceSize, at, ok);
      s.(shared := e.shared, early := Early(s, e),
         window := match e.outcome case Continue(n) => SendingDevice(n) case Return(_) => Idle case Crash => WindowCrashed(0))
    case Reporting(words, length, at) =>
      var e := SendStep(s.shared, Frame(WindowThread, Message(words)), Fits(length), at, ok);
      s.(shared := e.shared, early := Early(s, e),
         window := match e.outcome case Continue(n) => Reporting(words, length, n) case Return(_) => Idle case Crash => WindowCrashed(length))
    case _ => s
  }

  function Apply(cfg: Config, s: State, a: Action): (s': State)
    requires ValidConfig(cfg) && |s.memory| == cfg.width
    ensures |s'.memory| == cfg.width
  {
    match a
    case Connect =>
      if s.accept.Waiting? then
        s.(shared := Shared(Some(|s.shared.streams|), s.shared.streams + [[]]),
           accept := if cfg.sendsHello then Greeting(Verify) else Probing)
      else s
    case AcceptStep(ok) => StepAccept(cfg, s, ok)
    case Disconnect(clears) =>
      if s.accept.Serving? && (cfg.alwaysClears ==> clears) then
        s.(accept := Waiting, shared := if clears then s.shared.(handle := None) else s.shared)
      else s
    case PingTick =>
      if s.ping.Resting? then
        s.(ticks := s.ticks + 1,
           ping := if cfg.skipsIdlePing && s.shared.handle.None? then Resting else Counting)
      else s
    case PingStep(ok) => StepPing(cfg, s, ok)
    case SetDevice(program) =>
      if s.window.Idle? && ValidProgram(cfg, program) then
        s.(window := Writing(program, 0, s.memory), latest := Some(program))
      else s
    case Report(words, length) =>
      if s.window.Idle? then s.(window := Reporting(words, length, Verify)) else s
    case WindowStep(ok) => StepWindow(cfg, s, ok)
  }

  function RunFrom(cfg: Config, s: State, schedule: seq<Action>): (s': State)
    requires ValidConfig(cfg) && |s.memory| == cfg.width
    ensures |s'.memory| == cfg.width
    decreases |schedule|
  {
    if |schedule| == 0 then s
    else Apply(cfg, RunFrom(cfg, s, schedule[..|schedule| - 1]), schedule[|schedule| - 1])
  }

  /** The state after a schedule, from start-up. */
  function Run(cfg: Config, schedule: seq<Action>): (s': State)
    requires ValidConfig(cfg)
    ensures |s'.memory| == cfg.width
  {
    RunFrom(cfg, Init(cfg), schedule)
  }
}
