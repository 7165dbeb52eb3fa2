/** main.cpp: the handlers are wired first, then the tablet announces its device and forwards its states. */
module FanOut {
  import opened TabletState
  import opened WintabTablet
  import opened V1State

  type DeviceInfo = seq<int>

  datatype Event = DeviceEvent(device: DeviceInfo) | StateEvent(state: State)

  /** An IHandler, seen through the calls it receives. */
  class Handler {
    var log: seq<Event>

    constructor ()
      ensures log == []
    {
      log := [];
    }

    method SetDevice(d: DeviceInfo)
      modifies this
      ensures log == old(log) + [DeviceEvent(d)]
    {
      log := log + [DeviceEvent(d)];
    }

    method SetState(s: State)
      modifies this
      ensures log == old(log) + [StateEvent(s)]
    {
      log := log + [StateEvent(s)];
    }
  }

  ghost predicate Distinct(hs: seq<Handler>) {
    forall i, j :: 0 <= i < j < |hs| ==> hs[i] != hs[j]
  }

  class MultiHandler {
    var next: seq<Handler>

    constructor (handlers: seq<Handler>)
      ensures next == handlers
    {
      next := handlers;
    }

    method PushBack(h: Handler)
      modifies this
      ensures next == old(next) + [h]
    {
      next := next + [h];
    }

    method SetDevice(d: DeviceInfo)
      requires Distinct(next)
      modifies next
      ensures forall i :: 0 <= i < |next| ==> next[i].log == old(next[i].log) + [DeviceEvent(d)]
    {
      for k := 0 to |next|
        invariant forall i :: 0 <= i < k ==> next[i].log == old(next[i].log) + [DeviceEvent(d)]
        invariant forall i :: k <= i < |next| ==> next[i].log == old(next[i].log)
      {
        next[k].SetDevice(d);
      }
    }

    method SetState(s: State)
      requires Distinct(next)
      modifies next
      ensures forall i :: 0 <= i < |next| ==> next[i].log == old(next[i].log) + [StateEvent(s)]
    {
      for k := 0 to |next|
        invariant forall i :: 0 <= i < k ==> next[i].log == old(next[i].log) + [StateEvent(s)]
        invariant forall i :: k <= i < |next| ==> next[i].log == old(next[i].log)
      {
        next[k].SetState(s);
      }
    }
  }

  // ---- What every handler sees -----------------------------------------------------------------------

  /** The calls each handler receives for a device and the messages that reached the tablet. */
  function Log(d: DeviceInfo, extent: int, h: seq<Message>): (r: seq<Event>)
    decreases |h|
  {
    if |h| == 0 then [DeviceEvent(d)]
    else Log(d, extent, h[..|h| - 1]) + (if Accepted(h[|h| - 1]) then [StateEvent(Fold(extent, h))] else [])
  }

  lemma LogThen(d: DeviceInfo, extent: int, h: seq<Message>, m: Message)
    ensures Log(d, extent, h + [m]) == Log(d, extent, h) + (if Accepted(m) then [StateEvent(Fold(extent, h + [m]))] else [])
  {
    assert (h + [m])[..|h|] == h;
  }

  function AcceptedCount(h: seq<Message>): (n: nat)
    decreases |h|
  {
    if |h| == 0 then 0 else AcceptedCount(h[..|h| - 1]) + (if Accepted(h[|h| - 1]) then 1 else 0)
  }

  /** The device comes first, then exactly one state per accepted message and nothing else. */
  lemma {:induction false} DeviceThenStates(d: DeviceInfo, extent: int, h: seq<Message>)
    ensures var log := Log(d, extent, h);
      && |log| == 1 + AcceptedCount(h)
      && log[0] == DeviceEvent(d)
      && (forall i :: 0 < i < |log| ==> log[i].StateEvent?)
    decreases |h|
  {
    if |h| > 0 {
      DeviceThenStates(d, extent, h[..|h| - 1]);
    }
  }

  /** The state sent for an accepted message sums up the history to that message, and so does its V1 form. */
  lemma {:induction false} StateSentFor(d: DeviceInfo, extent: int, h: seq<Message>, i: nat, vid: int, pid: int)
    requires i < |h| && Accepted(h[i])
    ensures var k := 1 + AcceptedCount(h[..i]);
      && k < |Log(d, extent, h)|
      && Log(d, extent, h)[k] == StateEvent(Fold(extent, h[..i + 1]))
      && MeansHistory(extent, Translate(vid, pid, Fold(extent, h[..i + 1])), h[..i + 1], vid, pid)
    decreases |h|
  {
    var rest := h[..|h| - 1];
    DeviceThenStates(d, extent, rest);
    EndToEnd(extent, h[..i + 1], vid, pid);
    if i == |h| - 1 {
      assert h[..i] == rest && h[..i + 1] == h;
    } else {
      assert rest[i] == h[i] && rest[..i] == h[..i] && rest[..i + 1] == h[..i + 1];
      StateSentFor(d, extent, rest, i, vid, pid);
    }
  }

  // ---- Start-up and the message pump -----------------------------------------------------------------

  /** The handler list main builds: V2 always, V1 when asked for, before any tablet exists. */
  method Wire(v2: Handler, v1: Handler, withV1: bool) returns (servers: MultiHandler)
    ensures fresh(servers) && servers.next == if withV1 then [v2, v1] else [v2]
  {
    servers := new MultiHandler([v2]);
    if withV1 {
      servers.PushBack(v1);
    }
  }

  class Adapter {
    const device: DeviceInfo
    const tablet: Tablet
    const servers: MultiHandler

    /** Every handler has received the same sequence: the log of the tablet's history. */
    ghost predicate Valid()
      reads this, tablet, servers, servers.next
    {
      && tablet.Valid()
      && Distinct(servers.next)
      && (forall i :: 0 <= i < |servers.next| ==> servers.next[i].log == Log(device, tablet.extent, tablet.history))
    }

    /** Constructing the tablet announces the device before any message is pumped. */
    constructor (window: int, extent: int, device: DeviceInfo, servers: MultiHandler)
      requires Distinct(servers.next) && forall i :: 0 <= i < |servers.next| ==> servers.next[i].log == []
      modifies servers.next
      ensures Valid() && tablet.history == [] && this.servers == servers && this.device == device && fresh(tablet)
      ensures tablet.window == window && tablet.extent == extent && servers.next == old(servers.next)
    {
      this.device := device;
      this.servers := servers;
      tablet := new Tablet(window, extent);
      new;
      servers.SetDevice(device);
    }

    /** WintabTablet::ProcessMessage. */
    method ProcessMessage(hwnd: int, m: Message) returns (handled: bool)
      requires Valid() && ValidMessage(m)
      modifies tablet, servers.next
      ensures Valid() && servers.next == old(servers.next)
      ensures handled <==> hwnd == tablet.window && Accepted(m)
      ensures tablet.history == if hwnd == tablet.window && !m.Other? then old(tablet.history) + [m] else old(tablet.history)
    {
      if m.Other? {
        return false;
      }
      if tablet.window != hwnd {
        return false;
      }
      LogThen(device, tablet.extent, tablet.history, m);
      var accepted := tablet.ProcessMessageImpl(m);
      if accepted {
        servers.SetState(tablet.state);
      }
      handled := accepted;
    }
  }
}
