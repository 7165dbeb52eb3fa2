/**
  A finer machine for one question: what if `send` or `WriteFile` reads the shared message cell by
  cell while SetDevice stores into it?  SetDevice runs once, as in the program; clients come and go
  and sends may fail.  The window thread cannot tear its own message, so only the accept thread's
  copy is split.
 */
module SplitCopy {
  import opened Basics
  import opened SessionProtocol
  import opened FirstDevice
  import opened DeviceLayouts
  import opened FixedBuffer

  datatype CopyPc =
    | Listening                              // no handshake under way
    | Looking                                // a client is installed; about to test for a device
    | Copying(target: nat, got: seq<int>)    // sending it
    | Over                                   // handshake finished

  /** `stores` counts SetDevice's stores so far, `sent` is its send; `queues[k]` are the devices queued for client k. */
  datatype Machine = Machine(stores: nat, sent: bool, client: Option<nat>, accept: CopyPc, queues: seq<seq<seq<int>>>)

  datatype Move = Arrive | LookNow | CopyCell | Finish(ok: bool) | Leave(clears: bool) | StoreNext | SendOwn(ok: bool)

  const NOBODY: Machine := Machine(0, false, None, Listening, [])

  function Queued(s: Machine, target: nat, cells: seq<int>, ok: bool): Machine {
    if ok && s.client == Some(target) && target < |s.queues|
    then s.(queues := s.queues[target := s.queues[target] + [cells]])
    else s.(client := None)
  }

  function Take(cfg: Config, p: seq<Write>, s: Machine, a: Move): Machine
    requires ValidConfig(cfg)
  {
    var memory := Image(cfg, p, s.stores);
    match a
    case Arrive =>
      if s.accept.Listening? then s.(client := Some(|s.queues|), queues := s.queues + [[]], accept := Looking) else s
    case LookNow =>
      if !s.accept.Looking? then s
      else s.(accept := if memory[cfg.readyCell] != 0 && s.client.Some? then Copying(s.client.value, []) else Over)
    case CopyCell =>
      if s.accept.Copying? && |s.accept.got| < cfg.width
      then s.(accept := Copying(s.accept.target, s.accept.got + [memory[|s.accept.got|]]))
      else s
    case Finish(ok) =>
      if s.accept.Copying? && |s.accept.got| == cfg.width
      then Queued(s, s.accept.target, s.accept.got, ok).(accept := Over)
      else s
    case Leave(clears) =>
      if s.accept.Over? then s.(accept := Listening, client := if clears then None else s.client) else s
    case StoreNext => if s.stores < |p| then s.(stores := s.stores + 1) else s
    case SendOwn(ok) =>
      if s.stores != |p| || s.sent then s
      else if s.client.None? then s.(sent := true)
      else Queued(s, s.client.value, memory, ok).(sent := true)
  }

  function TakeAll(cfg: Config, p: seq<Write>, s: Machine, moves: seq<Move>): Machine
    requires ValidConfig(cfg)
    decreases |moves|
  {
    if |moves| == 0 then s
    else Take(cfg, p, TakeAll(cfg, p, s, moves[..|moves| - 1]), moves[|moves| - 1])
  }

  /** With SetDevice and the handshake over, the last device an installed client got is the complete one. */
  ghost predicate ClientComplete(cfg: Config, p: seq<Write>, s: Machine) {
    s.sent && (s.accept.Over? || s.accept.Listening?) && s.client.Some? ==>
      && s.client.value < |s.queues|
      && var q := s.queues[s.client.value]; |q| > 0 && q[|q| - 1] == Complete(cfg, p)
  }

  ghost predicate EndsComplete(cfg: Config, p: seq<Write>, moves: seq<Move>)
    requires ValidConfig(cfg)
  {
    ClientComplete(cfg, p, TakeAll(cfg, p, NOBODY, moves))
  }

  /** From the store that makes the device ready on, the memory is the complete device. */
  ghost predicate CompleteOnceReady(cfg: Config, p: seq<Write>)
    requires ValidConfig(cfg)
  {
    forall k: nat :: k <= |p| && ReadyBy(cfg, p, k) ==> Image(cfg, p, k) == Complete(cfg, p)
  }

  // ---- Safe when complete once ready ---------------------------------------------------------------

  ghost predicate Sound(cfg: Config, p: seq<Write>, s: Machine)
    requires ValidConfig(cfg)
  {
    && s.stores <= |p| && (s.sent ==> s.stores == |p|)
    && (s.client.Some? ==> s.client.value == |s.queues| - 1)
    && (s.accept.Copying? ==> ReadyBy(cfg, p, s.stores) && s.accept.got <= Complete(cfg, p))
    && (forall k, i :: 0 <= k < |s.queues| && 0 <= i < |s.queues[k]| ==> s.queues[k][i] == Complete(cfg, p))
    && (s.sent && (s.accept.Over? || s.accept.Listening?) && s.client.Some? ==> |s.queues[s.client.value]| > 0)
  }

  lemma SoundQueued(cfg: Config, p: seq<Write>, s: Machine, target: nat, ok: bool, s': Machine)
    requires ValidConfig(cfg) && Sound(cfg, p, s) && s.stores == s'.stores && (s'.sent ==> s.stores == |p|)
    requires var t := Queued(s, target, Complete(cfg, p), ok); s'.client == t.client && s'.queues == t.queues
    requires !s'.accept.Copying? || s'.accept == s.accept
    ensures Sound(cfg, p, s')
  {
  }

  lemma SoundLook(cfg: Config, p: seq<Write>, s: Machine)
    requires ValidConfig(cfg) && ValidProgram(cfg, p) && Sound(cfg, p, s)
    ensures Sound(cfg, p, Take(cfg, p, s, LookNow))
  {
    ReadyAtEnd(cfg, p);
    if Image(cfg, p, s.stores)[cfg.readyCell] != 0 {
      assert ReadyBy(cfg, p, s.stores);
    }
  }

  lemma SoundStore(cfg: Config, p: seq<Write>, s: Machine)
    requires ValidConfig(cfg) && Sound(cfg, p, s)
    ensures Sound(cfg, p, Take(cfg, p, s, StoreNext))
  {
    if s.accept.Copying? && s.stores < |p| {
      var m: nat :| m <= s.stores && Image(cfg, p, m)[cfg.readyCell] != 0;
      assert ReadyBy(cfg, p, s.stores + 1);
    }
  }

  lemma SoundSends(cfg: Config, p: seq<Write>, s: Machine, a: Move)
    requires ValidConfig(cfg) && ValidProgram(cfg, p) && Sound(cfg, p, s) && (a.Finish? || a.SendOwn?)
    ensures Sound(cfg, p, Take(cfg, p, s, a))
  {
    var s' := Take(cfg, p, s, a);
    if a.Finish? {
      if s.accept.Copying? && |s.accept.got| == cfg.width {
        assert s.accept.got == Complete(cfg, p);
        SoundQueued(cfg, p, s, s.accept.target, a.ok, s');
      }
    } else if s.stores == |p| && !s.sent && s.client.Some? {
      ReadyAtEnd(cfg, p);
      SoundQueued(cfg, p, s, s.client.value, a.ok, s');
    }
  }

  lemma SoundStep(cfg: Config, p: seq<Write>, s: Machine, a: Move)
    requires ValidConfig(cfg) && ValidProgram(cfg, p) && CompleteOnceReady(cfg, p) && Sound(cfg, p, s)
    ensures Sound(cfg, p, Take(cfg, p, s, a))
  {
    match a
    case LookNow => SoundLook(cfg, p, s);
    case StoreNext => SoundStore(cfg, p, s);
    case Finish(ok) => SoundSends(cfg, p, s, a);
    case SendOwn(ok) => SoundSends(cfg, p, s, a);
    case _ =>
  }

  lemma {:induction false} SoundRun(cfg: Config, p: seq<Write>, moves: seq<Move>)
    requires ValidConfig(cfg) && ValidProgram(cfg, p) && CompleteOnceReady(cfg, p)
    ensures Sound(cfg, p, TakeAll(cfg, p, NOBODY, moves))
    decreases |moves|
  {
    if |moves| > 0 {
      SoundRun(cfg, p, moves[..|moves| - 1]);
      SoundStep(cfg, p, TakeAll(cfg, p, NOBODY, moves[..|moves| - 1]), moves[|moves| - 1]);
    }
  }

  // ---- Torn for good otherwise -----------------------------------------------------------------------

  lemma {:induction false} TakeConcat(cfg: Config, p: seq<Write>, s: Machine, first: seq<Move>, second: seq<Move>)
    requires ValidConfig(cfg)
    ensures TakeAll(cfg, p, s, first + second) == TakeAll(cfg, p, TakeAll(cfg, p, s, first), second)
    decreases |second|
  {
    if |second| == 0 {
      assert first + second == first;
    } else {
      TakeConcat(cfg, p, s, first, second[..|second| - 1]);
      assert (first + second)[..|first + second| - 1] == first + second[..|second| - 1];
    }
  }

  function Times(n: nat, a: Move): (r: seq<Move>)
    ensures |r| == n
  {
    seq(n, _ => a)
  }

  lemma {:induction false} Stores(cfg: Config, p: seq<Write>, s: Machine, n: nat)
    requires ValidConfig(cfg) && s.stores + n <= |p|
    ensures TakeAll(cfg, p, s, Times(n, StoreNext)) == s.(stores := s.stores + n)
  {
    if n > 0 {
      Stores(cfg, p, s, n - 1);
      assert Times(n, StoreNext)[..n - 1] == Times(n - 1, StoreNext);
    }
  }

  lemma {:induction false} Copies(cfg: Config, p: seq<Write>, s: Machine, n: nat)
    requires ValidConfig(cfg) && s.accept == Copying(0, []) && n <= cfg.width
    ensures TakeAll(cfg, p, s, Times(n, CopyCell)) == s.(accept := Copying(0, Image(cfg, p, s.stores)[..n]))
  {
    if n > 0 {
      Copies(cfg, p, s, n - 1);
      var memory := Image(cfg, p, s.stores);
      assert memory[..n] == memory[..n - 1] + [memory[n - 1]];
      assert Times(n, CopyCell)[..n - 1] == Times(n - 1, CopyCell);
    }
  }

  /** One client; SetDevice has made k stores and the accept thread holds this much of its copy. */
  function OneClient(k: nat, got: seq<int>): Machine {
    Machine(k, false, Some(0), Copying(0, got), [[]])
  }

  lemma FoundAt(cfg: Config, p: seq<Write>, m: nat) returns (moves: seq<Move>)
    requires ValidConfig(cfg) && m <= |p| && Image(cfg, p, m)[cfg.readyCell] != 0
    ensures TakeAll(cfg, p, NOBODY, moves) == OneClient(m, [])
  {
    var arrived := Machine(0, false, Some(0), Looking, [[]]);
    assert [Arrive][..0] == [];
    assert NOBODY.queues + [[]] == [[]];
    assert TakeAll(cfg, p, NOBODY, [Arrive]) == arrived;
    Stores(cfg, p, arrived, m);
    TakeConcat(cfg, p, NOBODY, [Arrive], Times(m, StoreNext));
    moves := [Arrive] + Times(m, StoreNext) + [LookNow];
    assert moves[..|moves| - 1] == [Arrive] + Times(m, StoreNext);
  }

  lemma ReachedAt(cfg: Config, p: seq<Write>, m: nat, k: nat) returns (moves: seq<Move>)
    requires ValidConfig(cfg) && m <= k <= |p| && Image(cfg, p, m)[cfg.readyCell] != 0
    ensures TakeAll(cfg, p, NOBODY, moves) == OneClient(k, [])
  {
    var found := FoundAt(cfg, p, m);
    Stores(cfg, p, OneClient(m, []), k - m);
    TakeConcat(cfg, p, NOBODY, found, Times(k - m, StoreNext));
    moves := found + Times(k - m, StoreNext);
  }

  lemma CopiesAll(cfg: Config, p: seq<Write>, k: nat)
    requires ValidConfig(cfg)
    ensures TakeAll(cfg, p, OneClient(k, []), Times(cfg.width, CopyCell)) == OneClient(k, Image(cfg, p, k))
  {
    Copies(cfg, p, OneClient(k, []), cfg.width);
    assert Image(cfg, p, k)[..cfg.width] == Image(cfg, p, k);
  }

  /** The device is found ready after m stores and copied whole after k. */
  lemma CopiedAt(cfg: Config, p: seq<Write>, m: nat, k: nat) returns (moves: seq<Move>)
    requires ValidConfig(cfg) && m <= k <= |p| && Image(cfg, p, m)[cfg.readyCell] != 0
    ensures TakeAll(cfg, p, NOBODY, moves) == OneClient(k, Image(cfg, p, k))
  {
    var reached := ReachedAt(cfg, p, m, k);
    CopiesAll(cfg, p, k);
    TakeConcat(cfg, p, NOBODY, reached, Times(cfg.width, CopyCell));
    moves := reached + Times(cfg.width, CopyCell);
  }

  /** ... and then SetDevice makes the rest of its stores. */
  lemma StoredAfter(cfg: Config, p: seq<Write>, m: nat, k: nat) returns (moves: seq<Move>)
    requires ValidConfig(cfg) && m <= k <= |p| && Image(cfg, p, m)[cfg.readyCell] != 0
    ensures TakeAll(cfg, p, NOBODY, moves) == OneClient(|p|, Image(cfg, p, k))
  {
    var copied := CopiedAt(cfg, p, m, k);
    Stores(cfg, p, OneClient(k, Image(cfg, p, k)), |p| - k);
    TakeConcat(cfg, p, NOBODY, copied, Times(|p| - k, StoreNext));
    moves := copied + Times(|p| - k, StoreNext);
  }

  lemma QueuedLast(s: Machine, q: seq<seq<int>>, cells: seq<int>)
    requires s.client == Some(0) && s.queues == [q]
    ensures Queued(s, 0, cells, true) == s.(queues := [q + [cells]])
  {
    assert [q][0 := q + [cells]] == [q + [cells]];
  }

  /** SetDevice's own device is queued, then the copy. */
  lemma QueuedAfter(cfg: Config, p: seq<Write>, torn: seq<int>)
    requires ValidConfig(cfg) && ValidProgram(cfg, p) && |torn| == cfg.width
    ensures TakeAll(cfg, p, OneClient(|p|, torn), [SendOwn(true), Finish(true)])
         == Machine(|p|, true, Some(0), Over, [[Complete(cfg, p), torn]])
  {
    ReadyAtEnd(cfg, p);
    var d, none: seq<seq<int>> := Complete(cfg, p), [];
    var s0, s1 := OneClient(|p|, torn), Machine(|p|, true, Some(0), Copying(0, torn), [[d]]);
    QueuedLast(s0, none, d);
    QueuedLast(s1, [d], torn);
    assert none + [d] == [d] && [d] + [torn] == [d, torn];
    assert [SendOwn(true), Finish(true)][..1] == [SendOwn(true)] && [SendOwn(true)][..0] == [];
    assert TakeAll(cfg, p, s0, [SendOwn(true)]) == s1;
  }

  /** The copy is queued after the window thread's complete device. */
  lemma TornLast(cfg: Config, p: seq<Write>, m: nat, k: nat) returns (moves: seq<Move>)
    requires ValidConfig(cfg) && ValidProgram(cfg, p) && m <= k <= |p| && Image(cfg, p, m)[cfg.readyCell] != 0
    ensures TakeAll(cfg, p, NOBODY, moves) == Machine(|p|, true, Some(0), Over, [[Complete(cfg, p), Image(cfg, p, k)]])
  {
    var stored := StoredAfter(cfg, p, m, k);
    QueuedAfter(cfg, p, Image(cfg, p, k));
    TakeConcat(cfg, p, NOBODY, stored, [SendOwn(true), Finish(true)]);
    moves := stored + [SendOwn(true), Finish(true)];
  }

  /**
    With split copies, every run leaves every installed client with the complete device exactly when
    the memory is complete from the store that makes it ready on.
   */
  lemma SplitCopySafeIff(cfg: Config, p: seq<Write>)
    requires ValidConfig(cfg) && ValidProgram(cfg, p)
    ensures (forall moves :: EndsComplete(cfg, p, moves)) <==> CompleteOnceReady(cfg, p)
  {
    if CompleteOnceReady(cfg, p) {
      forall moves ensures EndsComplete(cfg, p, moves) {
        SoundRun(cfg, p, moves);
      }
    } else {
      var k: nat :| k <= |p| && ReadyBy(cfg, p, k) && Image(cfg, p, k) != Complete(cfg, p);
      var m: nat :| m <= k && Image(cfg, p, m)[cfg.readyCell] != 0;
      var moves := TornLast(cfg, p, m, k);
      assert !EndsComplete(cfg, p, moves);
    }
  }

  /** V2 engages the optional last, so it stays safe. */
  lemma V2SplitCopySafe(d: V2Info, moves: seq<Move>)
    requires ValidInfo(d)
    ensures ValidConfig(V2) && EndsComplete(V2, V2Program(d), moves)
  {
    var p := V2Program(d);
    V2Valid(d);
    V2Stored(d);
    forall k: nat | k <= |p| && ReadyBy(V2, p, k) ensures Image(V2, p, k) == Complete(V2, p) {
      V2ReadyFrom(d, k);
      V2FromReady(d, k);
    }
    SplitCopySafeIff(V2, p);
  }

  /** V1 sets isValid first, so a client can be left with a valid device of zero size. */
  lemma V1SplitCopyTorn(d: V1Info) returns (moves: seq<Move>)
    ensures ValidConfig(V1)
    ensures TakeAll(V1, V1Program(d), NOBODY, moves).queues
         == [[V1Image(d), [1, 156, d.vid, d.pid, 1, 0, 0, 0] + Zeros(64)]]
  {
    assert V1Fresh(d)[4 := 1] == [1, 156, d.vid, d.pid, 1, 0, 0, 0] + Zeros(64);
    V1Valid(d);
    V1Stored(d);
    V1FirstReady(d);
    moves := TornLast(V1, V1Program(d), 73, 73);
  }
}
