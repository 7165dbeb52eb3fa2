/**
  The vendor and product ID in V1's pings.  PingLoop reads both from the stored device, one after the
  other and in an order C++ leaves open, while SetDevice may be storing it.
 */
module PingIds {
  import opened Basics
  import opened SessionProtocol
  import opened SessionProofs
  import opened Server
  import opened SessionWitnesses
  import opened FirstDevice
  import opened DeviceLayouts

  const VID_CELL: nat := 2
  const PID_CELL: nat := 3

  // ---- The two cells over a run ----------------------------------------------------------------------

  lemma StoresStep(cfg: Config, s: State, p: seq<Write>, a: Action)
    requires ValidConfig(cfg) && |s.memory| == cfg.width && Single(cfg, s, p)
    requires a.SetDevice? ==> a == SetDevice(p) && s.latest.None?
    ensures StoresDone(s, p) <= StoresDone(Apply(cfg, s, a), p)
  {
  }

  lemma OneDevicePrefix(schedule: seq<Action>, p: seq<Write>, j: nat)
    requires OneDevice(schedule, p) && j <= |schedule|
    ensures OneDevice(schedule[..j], p)
  {
    var t := schedule[..j];
    forall i | 0 <= i < |t| && t[i].SetDevice? ensures t[i] == SetDevice(p) && SetsNoDevice(t[..i]) {
      assert t[i] == schedule[i] && t[..i] == schedule[..i];
    }
  }

  /** The number of stores made never goes down. */
  lemma {:induction false} StoresGrow(cfg: Config, schedule: seq<Action>, p: seq<Write>, i: nat, j: nat)
    requires ValidConfig(cfg) && OneDevice(schedule, p) && i <= j <= |schedule|
    ensures StoresDone(Run(cfg, schedule[..i]), p) <= StoresDone(Run(cfg, schedule[..j]), p)
    decreases j
  {
    if i < j {
      var rest, a := schedule[..j - 1], schedule[j - 1];
      StoresGrow(cfg, schedule, p, i, j - 1);
      OneDevicePrefix(schedule, p, j - 1);
      SingleRun(cfg, rest, p);
      StoresStep(cfg, Run(cfg, rest), p, a);
      assert schedule[..j] == rest + [a];
      RunThen(cfg, Init(cfg), rest, a);
    }
  }

  lemma MemoryAt(cfg: Config, schedule: seq<Action>, p: seq<Write>, j: nat)
    requires ValidConfig(cfg) && OneDevice(schedule, p) && j <= |schedule|
    ensures var s := Run(cfg, schedule[..j]); s.memory == Image(cfg, p, StoresDone(s, p))
  {
    OneDevicePrefix(schedule, p, j);
    SingleRun(cfg, schedule[..j], p);
  }

  /** Each ID is stored once. */
  lemma IdStores(d: V1Info)
    ensures var p := V1Program(d);
      && |p| >= 4 && p[2] == Write(VID_CELL, d.vid) && p[3] == Write(PID_CELL, d.pid)
      && (forall i :: 0 <= i < |p| ==> (p[i].cell == VID_CELL ==> i == 2) && (p[i].cell == PID_CELL ==> i == 3))
  {
  }

  lemma CellFrom(program: seq<Write>, at: nat, cell: nat, value: int, k: nat)
    requires at < |program| && program[at] == Write(cell, value) && cell < V1.width
    requires forall i :: 0 <= i < |program| && program[i].cell == cell ==> i == at
    ensures Image(V1, program, k)[cell] == if k > at then value else 0
  {
    var q := program[..Min(k, |program|)];
    if k > at {
      assert q[at].cell == cell;
      StoredLast(Blank(V1), q, cell, value);
    } else {
      ZeroStays(Blank(V1), q, cell);
    }
  }

  /** The vendor ID is there from the third store on, the product ID from the fourth. */
  lemma IdCells(d: V1Info, k: nat)
    ensures Image(V1, V1Program(d), k)[VID_CELL] == if k >= 3 then d.vid else 0
    ensures Image(V1, V1Program(d), k)[PID_CELL] == if k >= 4 then d.pid else 0
  {
    IdStores(d);
    CellFrom(V1Program(d), 2, VID_CELL, d.vid, k);
    CellFrom(V1Program(d), 3, PID_CELL, d.pid, k);
  }

  // ---- What a ping can carry ---------------------------------------------------------------------------

  /** One ID is read after i steps of the schedule and the other after j. */
  ghost predicate ReadsPair(schedule: seq<Action>, i: nat, j: nat, vidFirst: bool, vid: int, pid: int) {
    && i <= j <= |schedule|
    && var early, late := Run(V1, schedule[..i]).memory, Run(V1, schedule[..j]).memory;
       if vidFirst then vid == early[VID_CELL] && pid == late[PID_CELL] else pid == early[PID_CELL] && vid == late[VID_CELL]
  }

  ghost predicate CanCarry(d: V1Info, vidFirst: bool, vid: int, pid: int) {
    exists schedule, i: nat, j: nat :: OneDevice(schedule, V1Program(d)) && ReadsPair(schedule, i, j, vidFirst, vid, pid)
  }

  ghost predicate Possible(d: V1Info, vidFirst: bool, vid: int, pid: int) {
    || (vid == 0 && pid == 0)
    || (vid == d.vid && pid == 0)
    || (vid == d.vid && pid == d.pid)
    || (vidFirst && vid == 0 && pid == d.pid)
  }

  lemma CarriesOnly(d: V1Info, schedule: seq<Action>, i: nat, j: nat, vidFirst: bool, vid: int, pid: int)
    requires OneDevice(schedule, V1Program(d)) && ReadsPair(schedule, i, j, vidFirst, vid, pid)
    ensures Possible(d, vidFirst, vid, pid)
  {
    var p := V1Program(d);
    MemoryAt(V1, schedule, p, i);
    MemoryAt(V1, schedule, p, j);
    StoresGrow(V1, schedule, p, i, j);
    IdCells(d, StoresDone(Run(V1, schedule[..i]), p));
    IdCells(d, StoresDone(Run(V1, schedule[..j]), p));
  }

  function Storing(d: V1Info, k: nat): seq<Action> {
    [SetDevice(V1Program(d))] + Repeat(WindowStep(true), k)
  }

  function FirstBegun(p: seq<Write>): State {
    Init(V1).(window := Writing(p, 0, Blank(V1)), latest := Some(p))
  }

  lemma DeviceBegun(d: V1Info)
    ensures Run(V1, [SetDevice(V1Program(d))]) == FirstBegun(V1Program(d))
  {
    var none: seq<Action> := [];
    V1Valid(d);
    RunThen(V1, Init(V1), none, SetDevice(V1Program(d)));
    assert none + [SetDevice(V1Program(d))] == [SetDevice(V1Program(d))];
  }

  lemma AfterStores(d: V1Info, k: nat)
    requires k <= |V1Program(d)|
    ensures Run(V1, Storing(d, k)).memory == Image(V1, V1Program(d), k)
    ensures OneDevice(Storing(d, k), V1Program(d))
  {
    var p := V1Program(d);
    DeviceBegun(d);
    assert p[..0] == [];
    StoresMade(V1, FirstBegun(p), p, 0, k, Blank(V1));
    RunConcat(V1, Init(V1), [SetDevice(p)], Repeat(WindowStep(true), k));
  }

  lemma Carries(d: V1Info, m: nat, k: nat, vidFirst: bool)
    requires m <= k <= 4
    ensures var early, late := Image(V1, V1Program(d), m), Image(V1, V1Program(d), k);
      if vidFirst then CanCarry(d, vidFirst, early[VID_CELL], late[PID_CELL]) else CanCarry(d, vidFirst, late[VID_CELL], early[PID_CELL])
  {
    var schedule := Storing(d, 4);
    AfterStores(d, m);
    AfterStores(d, k);
    AfterStores(d, 4);
    assert schedule[..m + 1] == Storing(d, m) && schedule[..k + 1] == Storing(d, k);
    var early, late := Image(V1, V1Program(d), m), Image(V1, V1Program(d), k);
    assert ReadsPair(schedule, m + 1, k + 1, vidFirst,
                     if vidFirst then early[VID_CELL] else late[VID_CELL], if vidFirst then late[PID_CELL] else early[PID_CELL]);
  }

  /**
    Over every schedule with one SetDevice call, the pairs a V1 ping can carry are exactly: none yet,
    the vendor ID alone, both, and, if the vendor ID is read first, the product ID alone.
   */
  lemma PingIdsIff(d: V1Info, vidFirst: bool, vid: int, pid: int)
    ensures CanCarry(d, vidFirst, vid, pid) <==> Possible(d, vidFirst, vid, pid)
  {
    if CanCarry(d, vidFirst, vid, pid) {
      var schedule, i: nat, j: nat :| OneDevice(schedule, V1Program(d)) && ReadsPair(schedule, i, j, vidFirst, vid, pid);
      CarriesOnly(d, schedule, i, j, vidFirst, vid, pid);
    }
    IdCells(d, 0);
    IdCells(d, 3);
    IdCells(d, 4);
    Carries(d, 0, 0, vidFirst);
    Carries(d, 3, 3, vidFirst);
    Carries(d, 4, 4, vidFirst);
    Carries(d, 0, 4, vidFirst);
  }
}
