/**
  The foreground override: a named mutex and one shared HWND, used by any number of threads in any
  number of processes.  Actions are the atomic steps; an action that is not enabled changes nothing.
 */
module ForegroundOverride {
  import opened Basics

  /** 0 is the null window. */
  type Hwnd = nat

  datatype Pc =
    | Idle
    | Acquired(window: Hwnd)    // in the writing constructor, mutex held, view not yet written
    | Trying                    // Get, before the zero-timeout acquire
    | Probing                   // Get got the mutex; it will release it and return null
    | Reading                   // Get did not get the mutex
    | Asked(alive: bool)        // Get has called IsWindow on the view
    | Returned(result: Hwnd)    // outside Get; the last one returned this

  /**
    The mutex is owned by a thread and counts recursive acquisitions.  `held[t]` are the windows of
    the writers alive on thread t, in the order they were constructed; `live` are the windows for
    which IsWindow answers true.
   */
  datatype State = State(
    owner: Option<nat>, depth: nat, view: Hwnd, live: set<Hwnd>,
    pcs: map<nat, Pc>, held: map<nat, seq<Hwnd>>)

  function PcOf(s: State, t: nat): Pc {
    if t in s.pcs then s.pcs[t] else Idle
  }

  function HeldBy(s: State, t: nat): seq<Hwnd> {
    if t in s.held then s.held[t] else []
  }

  const START: State := State(None, 0, 0, {}, map[], map[])

  datatype Action =
    | Acquire(t: nat, w: Hwnd)    // the writing constructor's acquire succeeds
    | Publish(t: nat)             // the writing constructor stores the window
    | Throw(t: nat)               // it fails to map the view, and its lock is released
    | Release(t: nat)             // a writer is destroyed
    | BeginGet(t: nat)
    | TryLock(t: nat)
    | EndProbe(t: nat)
    | AskWindow(t: nat)
    | Finish(t: nat)
    | Die(t: nat)                 // the thread ends; the mutex it owned is abandoned
    | Window(w: Hwnd, up: bool)   // a window is created or destroyed

  predicate CanLock(s: State, t: nat) {
    s.owner == None || s.owner == Some(t)
  }

  function Lock(s: State, t: nat): State {
    s.(owner := Some(t), depth := s.depth + 1)
  }

  function Unlock(s: State): State {
    if s.depth <= 1 then s.(owner := None, depth := 0) else s.(depth := s.depth - 1)
  }

  function Goto(s: State, t: nat, pc: Pc): State {
    s.(pcs := s.pcs[t := pc])
  }

  /** Outside the writing constructor and outside Get. */
  predicate Free(s: State, t: nat) {
    PcOf(s, t).Idle? || PcOf(s, t).Returned?
  }

  function Apply(s: State, a: Action): State {
    match a
    case Acquire(t, w) =>
      if Free(s, t) && CanLock(s, t) then Goto(Lock(s, t), t, Acquired(w)) else s
    case Publish(t) =>
      if PcOf(s, t).Acquired? then
        var w := PcOf(s, t).window;
        Goto(s, t, Idle).(view := w, held := s.held[t := HeldBy(s, t) + [w]])
      else s
    case Throw(t) =>
      if PcOf(s, t).Acquired? then Goto(Unlock(s), t, Idle) else s
    case Release(t) =>
      if Free(s, t) && |HeldBy(s, t)| > 0 then
        Unlock(s).(held := s.held[t := HeldBy(s, t)[..|HeldBy(s, t)| - 1]])
      else s
    case BeginGet(t) =>
      if Free(s, t) then Goto(s, t, Trying) else s
    case TryLock(t) =>
      if PcOf(s, t).Trying? then
        if CanLock(s, t) then Goto(Lock(s, t), t, Probing) else Goto(s, t, Reading)
      else s
    case EndProbe(t) =>
      if PcOf(s, t).Probing? then Goto(Unlock(s), t, Returned(0)) else s
    case AskWindow(t) =>
      if PcOf(s, t).Reading? then Goto(s, t, Asked(s.view in s.live)) else s
    case Finish(t) =>
      if PcOf(s, t).Asked? then Goto(s, t, Returned(if PcOf(s, t).alive then s.view else 0)) else s
    case Die(t) =>
      Goto(if s.owner == Some(t) then s.(owner := None, depth := 0) else s, t, Idle).(held := s.held[t := []])
    case Window(w, up) => s.(live := if up then s.live + {w} else s.live - {w})
  }

  function Run(s: State, schedule: seq<Action>): State
    decreases |schedule|
  {
    if |schedule| == 0 then s else Apply(Run(s, schedule[..|schedule| - 1]), schedule[|schedule| - 1])
  }

  // ---- The mutex ---------------------------------------------------------------------------------

  /** How many times thread t has the mutex. */
  function Holds(s: State, t: nat): nat {
    |HeldBy(s, t)| + (if PcOf(s, t).Acquired? || PcOf(s, t).Probing? then 1 else 0)
  }

  ghost predicate Locked(s: State) {
    && (s.owner.None? ==> s.depth == 0)
    && (s.owner.Some? ==> s.depth > 0)
    && (forall t: nat :: Holds(s, t) > 0 ==> s.owner == Some(t))
    && (s.owner.Some? ==> s.depth == Holds(s, s.owner.value))
  }

  lemma OthersKeep(s: State, a: Action, t: nat)
    requires a.Window? || t != a.t
    ensures Holds(Apply(s, a), t) == Holds(s, t)
  {
  }

  /** The thread that acts: it holds the mutex exactly as often as the mutex counts. */
  lemma ActorStep(s: State, a: Action)
    requires Locked(s) && !a.Window?
    ensures var s', t := Apply(s, a), a.t;
      && (s'.owner.None? ==> s'.depth == 0) && (s'.owner.Some? ==> s'.depth > 0)
      && (Holds(s', t) > 0 ==> s'.owner == Some(t))
      && (s'.owner == Some(t) ==> s'.depth == Holds(s', t))
      && (s.owner.Some? && s.owner.value != t ==> s'.owner == s.owner && s'.depth == s.depth)
      && (s'.owner.Some? && s'.owner.value != t ==> s'.owner == s.owner)
  {
    assert Holds(s, a.t) > 0 ==> s.owner == Some(a.t);
  }

  lemma LockedStep(s: State, a: Action)
    requires Locked(s)
    ensures Locked(Apply(s, a))
  {
    var s' := Apply(s, a);
    if !a.Window? {
      ActorStep(s, a);
    }
    forall t: nat | Holds(s', t) > 0 ensures s'.owner == Some(t) {
      if a.Window? || t != a.t {
        OthersKeep(s, a, t);
      }
    }
    if s'.owner.Some? && (a.Window? || s'.owner.value != a.t) {
      OthersKeep(s, a, s'.owner.value);
    }
  }

  lemma {:induction false} AlwaysLocked(schedule: seq<Action>)
    ensures Locked(Run(START, schedule))
    decreases |schedule|
  {
    if |schedule| > 0 {
      AlwaysLocked(schedule[..|schedule| - 1]);
      LockedStep(Run(START, schedule[..|schedule| - 1]), schedule[|schedule| - 1]);
    }
  }

  /** Writers on two threads never hold the override together. */
  lemma WritersExclude(schedule: seq<Action>, t: nat, u: nat)
    requires t != u
    ensures var s := Run(START, schedule); |HeldBy(s, t)| == 0 || |HeldBy(s, u)| == 0
  {
    AlwaysLocked(schedule);
    var s := Run(START, schedule);
    assert Holds(s, t) > 0 ==> s.owner == Some(t);
    assert Holds(s, u) > 0 ==> s.owner == Some(u);
  }

  /** The mutex is recursive, so the exclusion needs "one writer per thread": two on one thread coexist. */
  lemma SameThreadWritersCoexist(t: nat, v: Hwnd, w: Hwnd) returns (schedule: seq<Action>)
    ensures var s := Run(START, schedule);
      HeldBy(s, t) == [v, w] && s.view == w && s.owner == Some(t) && s.depth == 2 && forall u: nat :: PcOf(s, u).Idle?
  {
    schedule := [Acquire(t, v), Publish(t), Acquire(t, w), Publish(t)];
    var s1 := Apply(Apply(START, Acquire(t, v)), Publish(t));
    RunFour(START, schedule);
  }

  lemma RunFour(s: State, a: seq<Action>)
    requires |a| == 4
    ensures Run(s, a) == Apply(Apply(Apply(Apply(s, a[0]), a[1]), a[2]), a[3])
  {
    assert a[..3][..2] == a[..2] && a[..2][..1] == a[..1] && a[..1][..0] == [];
    assert Run(s, a[..2]) == Apply(Run(s, a[..1]), a[1]);
  }

  /** Get goes on to read the view exactly when another thread has a writer, is constructing one, or is probing. */
  lemma BusyIff(schedule: seq<Action>, r: nat)
    ensures var s := Run(START, schedule); !CanLock(s, r) <==> exists u: nat :: u != r && Holds(s, u) > 0
  {
    AlwaysLocked(schedule);
    var s := Run(START, schedule);
  }

  // ---- What one Get does ------------------------------------------------------------------------------

  /** The state before step k of a schedule. */
  function At(schedule: seq<Action>, k: nat): State {
    Run(START, if k <= |schedule| then schedule[..k] else schedule)
  }

  lemma AtNext(schedule: seq<Action>, k: nat)
    requires k < |schedule|
    ensures At(schedule, k + 1) == Apply(At(schedule, k), schedule[k])
  {
    assert schedule[..k + 1][..k] == schedule[..k];
  }

  lemma LockedAt(schedule: seq<Action>, k: nat)
    ensures Locked(At(schedule, k))
  {
    AlwaysLocked(if k <= |schedule| then schedule[..k] else schedule);
  }

  ghost predicate During(schedule: seq<Action>, r: nat, first: nat, last: nat, pc: Pc) {
    forall k: nat :: first < k <= last ==> PcOf(At(schedule, k), r) == pc
  }

  /** Step `tried` is a zero-timeout acquire by r, and r stands where it led until step `until`. */
  ghost predicate Tried(schedule: seq<Action>, r: nat, tried: nat, until: nat) {
    && tried < until <= |schedule| && schedule[tried] == TryLock(r) && PcOf(At(schedule, tried), r).Trying?
    && During(schedule, r, tried, until, if CanLock(At(schedule, tried), r) then Probing else Reading)
  }

  /** The acquire failed and step `asked` is the IsWindow call that followed. */
  ghost predicate AskedAt(schedule: seq<Action>, r: nat, tried: nat, asked: nat, until: nat) {
    && Tried(schedule, r, tried, asked) && !CanLock(At(schedule, tried), r)
    && asked < until <= |schedule| && schedule[asked] == AskWindow(r)
    && During(schedule, r, asked, until, Asked(At(schedule, asked).view in At(schedule, asked).live))
  }

  /** The steps of one Get: the acquire, the IsWindow call if it comes to that, and the return. */
  datatype Call = Call(tried: nat, asked: nat, done: nat)

  /** `c` is a Get of thread r in the schedule, and it returns v. */
  ghost predicate Get(schedule: seq<Action>, r: nat, c: Call, v: Hwnd) {
    && c.done < |schedule| && PcOf(At(schedule, c.done + 1), r) == Returned(v)
    && if CanLock(At(schedule, c.tried), r)
       then Tried(schedule, r, c.tried, c.done) && schedule[c.done] == EndProbe(r)
       else AskedAt(schedule, r, c.tried, c.asked, c.done) && schedule[c.done] == Finish(r)
  }

  ghost predicate Explained(schedule: seq<Action>, r: nat, c: Call, n: nat) {
    match PcOf(At(schedule, n), r)
    case Probing => Tried(schedule, r, c.tried, n) && CanLock(At(schedule, c.tried), r)
    case Reading => Tried(schedule, r, c.tried, n) && !CanLock(At(schedule, c.tried), r)
    case Asked(_) => AskedAt(schedule, r, c.tried, c.asked, n)
    case _ => true
  }

  /** How step a takes thread r from pc to pc'. */
  ghost predicate Moves(s: State, a: Action, r: nat, pc: Pc, pc': Pc) {
    || pc' == pc || pc'.Idle? || pc'.Acquired? || pc'.Trying?
    || (a == TryLock(r) && pc.Trying? && pc' == if CanLock(s, r) then Probing else Reading)
    || (a == AskWindow(r) && pc.Reading? && pc' == Asked(s.view in s.live))
    || (a == EndProbe(r) && pc.Probing? && pc' == Returned(0))
    || (a == Finish(r) && pc.Asked? && pc' == Returned(if pc.alive then s.view else 0))
  }

  lemma EveryMove(s: State, a: Action, r: nat)
    ensures Moves(s, a, r, PcOf(s, r), PcOf(Apply(s, a), r))
  {
  }

  lemma MoveAt(schedule: seq<Action>, r: nat, n: nat)
    requires n < |schedule|
    ensures Moves(At(schedule, n), schedule[n], r, PcOf(At(schedule, n), r), PcOf(At(schedule, n + 1), r))
  {
    AtNext(schedule, n);
    EveryMove(At(schedule, n), schedule[n], r);
  }

  lemma LongerDuring(schedule: seq<Action>, r: nat, first: nat, last: nat, pc: Pc)
    requires During(schedule, r, first, last, pc) && PcOf(At(schedule, last + 1), r) == pc
    ensures During(schedule, r, first, last + 1, pc)
  {
  }

  lemma ExplainStep(schedule: seq<Action>, r: nat, n: nat, b: Call) returns (c: Call)
    requires n < |schedule| && Explained(schedule, r, b, n)
    ensures Explained(schedule, r, c, n + 1)
  {
    MoveAt(schedule, r, n);
    var pc, pc' := PcOf(At(schedule, n), r), PcOf(At(schedule, n + 1), r);
    c := b;
    if pc' == pc {
      if pc.Probing? || pc.Reading? {
        LongerDuring(schedule, r, c.tried, n, pc);
      } else if pc.Asked? {
        LongerDuring(schedule, r, c.asked, n, pc);
      }
    } else if pc'.Probing? || pc'.Reading? {
      c := Call(n, 0, 0);
    } else if pc'.Asked? {
      c := b.(asked := n);
    }
  }

  lemma {:induction false} Explain(schedule: seq<Action>, r: nat, n: nat) returns (c: Call)
    requires n <= |schedule|
    ensures Explained(schedule, r, c, n)
  {
    c := Call(0, 0, 0);
    if n > 0 {
      c := Explain(schedule, r, n - 1);
      c := ExplainStep(schedule, r, n - 1, c);
    }
  }

  /** Whatever the interleaving, a thread that returns from Get has gone through the steps of one. */
  lemma EveryGet(schedule: seq<Action>, r: nat, n: nat) returns (c: Call)
    requires n < |schedule| && !PcOf(At(schedule, n), r).Returned? && PcOf(At(schedule, n + 1), r).Returned?
    ensures c.done == n && Get(schedule, r, c, PcOf(At(schedule, n + 1), r).result)
  {
    MoveAt(schedule, r, n);
    c := Explain(schedule, r, n);
    c := c.(done := n);
  }

  /** The result in terms of three states: at the acquire, at the IsWindow call and at the return. */
  lemma GetResult(schedule: seq<Action>, r: nat, c: Call, v: Hwnd)
    requires Get(schedule, r, c, v)
    ensures v == if CanLock(At(schedule, c.tried), r) then 0
                 else if At(schedule, c.asked).view in At(schedule, c.asked).live then At(schedule, c.done).view
                 else 0
  {
    MoveAt(schedule, r, c.done);
    var pc := PcOf(At(schedule, c.done), r);
  }

  // ---- Handoff -------------------------------------------------------------------------------------

  /** Thread t has a writer of window w, and the view shows w. */
  ghost predicate Published(s: State, t: nat, w: Hwnd) {
    w in HeldBy(s, t) && s.view == w
  }

  /**
    Handoff.  Every Get on another thread that makes its acquire and returns while a writer of w is
    published returns w if w is a window when Get asks, and null if not.
   */
  lemma Handoff(schedule: seq<Action>, r: nat, c: Call, v: Hwnd, t: nat, w: Hwnd)
    requires Get(schedule, r, c, v) && t != r
    requires forall k: nat :: c.tried <= k <= c.done ==> Published(At(schedule, k), t, w)
    ensures c.tried < c.asked < c.done
    ensures v == if w in At(schedule, c.asked).live then w else 0
  {
    GetResult(schedule, r, c, v);
    LockedAt(schedule, c.tried);
    assert Published(At(schedule, c.tried), t, w);
    assert Holds(At(schedule, c.tried), t) > 0;
    assert Published(At(schedule, c.asked), t, w) && Published(At(schedule, c.done), t, w);
  }

  /** On a writer's own thread the acquire succeeds recursively, so every Get there returns null. */
  lemma OwnThreadGetsNull(schedule: seq<Action>, t: nat, c: Call, v: Hwnd)
    requires Get(schedule, t, c, v) && |HeldBy(At(schedule, c.tried), t)| > 0
    ensures v == 0
  {
    GetResult(schedule, t, c, v);
    LockedAt(schedule, c.tried);
    assert Holds(At(schedule, c.tried), t) > 0;
  }

  /** From step b on, thread t neither destroys a writer, nor ends, nor starts another. */
  ghost predicate Stays(schedule: seq<Action>, b: nat, t: nat) {
    forall i :: b <= i < |schedule| ==> !Leaves(schedule[i], t)
  }

  predicate Leaves(a: Action, t: nat) {
    a == Release(t) || a == Die(t) || (a.Acquire? && a.t == t)
  }

  /** Published, and not about to be replaced by another writer of the same thread. */
  ghost predicate Settled(s: State, t: nat, w: Hwnd) {
    Published(s, t, w) && !PcOf(s, t).Acquired?
  }

  lemma SettledStep(s: State, a: Action, t: nat, w: Hwnd)
    requires Locked(s) && Settled(s, t, w) && !Leaves(a, t)
    ensures Settled(Apply(s, a), t, w)
  {
    assert Holds(s, t) > 0;
    if !a.Window? {
      assert Holds(s, a.t) > 0 ==> s.owner == Some(a.t);
    }
  }

  /** While its thread stays, a published writer stays published, whatever the others do. */
  lemma {:induction false} StaysPublished(schedule: seq<Action>, b: nat, t: nat, w: Hwnd, k: nat)
    requires b <= k <= |schedule| && Settled(At(schedule, b), t, w) && Stays(schedule, b, t)
    ensures Settled(At(schedule, k), t, w)
    decreases k
  {
    if k > b {
      StaysPublished(schedule, b, t, w, k - 1);
      LockedAt(schedule, k - 1);
      AtNext(schedule, k - 1);
      SettledStep(At(schedule, k - 1), schedule[k - 1], t, w);
    }
  }

  /**
    So once a writer is published, every Get that another thread makes from then on returns its
    window or, if that is gone, null, for as long as the writer's thread stays.
   */
  lemma HandoffWhileItStays(schedule: seq<Action>, b: nat, r: nat, c: Call, v: Hwnd, t: nat, w: Hwnd)
    requires b <= |schedule| && Settled(At(schedule, b), t, w) && Stays(schedule, b, t)
    requires Get(schedule, r, c, v) && b <= c.tried && t != r
    ensures v == if w in At(schedule, c.asked).live then w else 0
  {
    forall k: nat | c.tried <= k <= c.done ensures Published(At(schedule, k), t, w) {
      StaysPublished(schedule, b, t, w, k);
    }
    Handoff(schedule, r, c, v, t, w);
  }

  // ---- When a Get is wrong ---------------------------------------------------------------------------

  /** Some thread has a writer of window w. */
  ghost predicate InPlace(s: State, w: Hwnd) {
    exists u: nat :: w in HeldBy(s, u)
  }

  /** The step stores a new window in the view. */
  predicate Publishes(s: State, a: Action) {
    a.Publish? && PcOf(s, a.t).Acquired?
  }

  ghost predicate NothingPublished(schedule: seq<Action>, first: nat, last: nat) {
    forall k: nat :: first <= k < last && k < |schedule| ==> !Publishes(At(schedule, k), schedule[k])
  }

  /** Only publication changes the view or adds a writer, and what it publishes is in place. */
  lemma PublicationStep(s: State, a: Action, w: Hwnd)
    ensures !Publishes(s, a) ==> Apply(s, a).view == s.view && (InPlace(Apply(s, a), w) ==> InPlace(s, w))
    ensures Publishes(s, a) ==> InPlace(Apply(s, a), Apply(s, a).view)
  {
    var s' := Apply(s, a);
    if Publishes(s, a) {
      assert s'.view in HeldBy(s', a.t);
    } else if InPlace(s', w) {
      var u: nat :| w in HeldBy(s', u);
      assert w in HeldBy(s, u);
    }
  }

  lemma PublicationAt(schedule: seq<Action>, k: nat, w: Hwnd)
    requires k < |schedule|
    ensures !Publishes(At(schedule, k), schedule[k]) ==>
      At(schedule, k + 1).view == At(schedule, k).view && (InPlace(At(schedule, k + 1), w) ==> InPlace(At(schedule, k), w))
    ensures Publishes(At(schedule, k), schedule[k]) ==> InPlace(At(schedule, k + 1), At(schedule, k + 1).view)
  {
    AtNext(schedule, k);
    PublicationStep(At(schedule, k), schedule[k], w);
  }

  /** With nothing published, the view stays and no window comes into place. */
  lemma {:induction false} QuietView(schedule: seq<Action>, first: nat, last: nat, w: Hwnd)
    requires first <= last <= |schedule| && NothingPublished(schedule, first, last)
    ensures At(schedule, last).view == At(schedule, first).view
    ensures InPlace(At(schedule, last), w) ==> InPlace(At(schedule, first), w)
    decreases last
  {
    if first < last {
      QuietView(schedule, first, last - 1, w);
      PublicationAt(schedule, last - 1, w);
    }
  }

  /** If something was published, the final view was in place at some point since. */
  lemma {:induction false} LastPublished(schedule: seq<Action>, p: nat, last: nat) returns (k: nat)
    requires p < last <= |schedule| && Publishes(At(schedule, p), schedule[p])
    ensures p < k <= last && InPlace(At(schedule, k), At(schedule, last).view)
    decreases last
  {
    PublicationAt(schedule, last - 1, 0);
    if Publishes(At(schedule, last - 1), schedule[last - 1]) {
      k := last;
    } else {
      k := LastPublished(schedule, p, last - 1);
    }
  }

  /** Get returns a window that no thread has a writer of at any time from the acquire to the return. */
  ghost predicate Stale(schedule: seq<Action>, c: Call, v: Hwnd) {
    v != 0 && forall k: nat :: c.tried <= k <= c.done ==> !InPlace(At(schedule, k), v)
  }

  /** What is there at the acquire and the IsWindow call when that happens. */
  ghost predicate Leftover(schedule: seq<Action>, r: nat, c: Call) {
    var s := At(schedule, c.tried);
    && !CanLock(s, r) && s.view != 0 && !InPlace(s, s.view)
    && NothingPublished(schedule, c.tried, c.done)
    && At(schedule, c.asked).view in At(schedule, c.asked).live
  }

  lemma LeftoverIsStale(schedule: seq<Action>, r: nat, c: Call, v: Hwnd)
    requires Get(schedule, r, c, v) && Leftover(schedule, r, c)
    ensures Stale(schedule, c, v)
  {
    GetResult(schedule, r, c, v);
    QuietView(schedule, c.tried, c.done, v);
    forall k: nat | c.tried <= k <= c.done ensures !InPlace(At(schedule, k), v) {
      QuietView(schedule, c.tried, k, v);
    }
  }

  lemma StaleIsLeftover(schedule: seq<Action>, r: nat, c: Call, v: Hwnd)
    requires Get(schedule, r, c, v) && Stale(schedule, c, v)
    ensures Leftover(schedule, r, c)
  {
    GetResult(schedule, r, c, v);
    if !NothingPublished(schedule, c.tried, c.done) {
      var p: nat :| c.tried <= p < c.done && p < |schedule| && Publishes(At(schedule, p), schedule[p]);
      var k := LastPublished(schedule, p, c.done);
    }
    QuietView(schedule, c.tried, c.done, v);
    assert !InPlace(At(schedule, c.tried), v);
  }

  /**
    "Mutex taken" does not mean "override in place".  Every Get in every schedule: its result is
    stale exactly when another thread has the mutex at the acquire, the view then shows a window
    that no writer stands for, nothing is published before the return, and the window still exists
    when Get asks.
   */
  lemma StaleIff(schedule: seq<Action>, r: nat, c: Call, v: Hwnd)
    requires Get(schedule, r, c, v)
    ensures Stale(schedule, c, v) <==> Leftover(schedule, r, c)
  {
    if Stale(schedule, c, v) {
      StaleIsLeftover(schedule, r, c, v);
    } else if Leftover(schedule, r, c) {
      LeftoverIsStale(schedule, r, c, v);
    }
  }

  /** No thread has a writer or is constructing one. */
  ghost predicate NoWriter(s: State) {
    forall u: nat :: HeldBy(s, u) == [] && !PcOf(s, u).Acquired?
  }

  /** With no writer, the mutex is taken exactly when another thread's Get is probing. */
  lemma BusyWithoutWriter(schedule: seq<Action>, k: nat, r: nat)
    requires NoWriter(At(schedule, k))
    ensures !CanLock(At(schedule, k), r) <==> exists u: nat :: u != r && PcOf(At(schedule, k), u).Probing?
  {
    var s := At(schedule, k);
    BusyIff(if k <= |schedule| then schedule[..k] else schedule, r);
    forall u: nat ensures Holds(s, u) > 0 <==> PcOf(s, u).Probing? {
    }
  }

  /**
    The case with no writer and no constructor from the acquire to the return: Get returns a window
    exactly when another thread's Get held the mutex for its own probe at the acquire, and the
    window left in the view was one when Get asked.
   */
  lemma GetWithoutWriter(schedule: seq<Action>, r: nat, c: Call, v: Hwnd)
    requires Get(schedule, r, c, v)
    requires forall k: nat :: c.tried <= k <= c.done ==> NoWriter(At(schedule, k))
    ensures v != 0 <==>
      && (exists u: nat :: u != r && PcOf(At(schedule, c.tried), u).Probing?)
      && At(schedule, c.asked).view in At(schedule, c.asked).live && At(schedule, c.tried).view != 0
  {
    StaleIff(schedule, r, c, v);
    assert NoWriter(At(schedule, c.tried));
    BusyWithoutWriter(schedule, c.tried, r);
    forall k: nat | c.tried <= k <= c.done ensures !InPlace(At(schedule, k), v) {
      assert NoWriter(At(schedule, k));
    }
    forall k: nat | c.tried <= k < c.done ensures !Publishes(At(schedule, k), schedule[k]) {
      assert NoWriter(At(schedule, k));
    }
  }

  // ---- Stale overrides do happen -----------------------------------------------------------------------

  lemma {:induction false} RunConcat(s: State, first: seq<Action>, second: seq<Action>)
    ensures Run(s, first + second) == Run(Run(s, first), second)
    decreases |second|
  {
    if |second| == 0 {
      assert first + second == first;
    } else {
      RunConcat(s, first, second[..|second| - 1]);
      assert (first + second)[..|first + second| - 1] == first + second[..|second| - 1];
    }
  }

  lemma RunTwo(s: State, a: Action, b: Action)
    ensures Run(s, [a, b]) == Apply(Apply(s, a), b)
  {
    assert [a, b][..1] == [a] && [a][..0] == [];
    assert Run(s, [a]) == Apply(s, a);
  }

  function GetSteps(r: nat): seq<Action> {
    [BeginGet(r), TryLock(r), AskWindow(r), Finish(r)]
  }

  /** A Get that nobody interrupts, while another thread has the mutex, returns what the view shows. */
  lemma ReadsView(before: seq<Action>, r: nat)
    requires var s := Run(START, before); Free(s, r) && !CanLock(s, r) && s.view in s.live
    ensures var s, s' := Run(START, before), Run(START, before + GetSteps(r));
      PcOf(s', r) == Returned(s.view) && s'.held == s.held && forall u: nat :: u != r ==> PcOf(s', u) == PcOf(s, u)
  {
    RunConcat(START, before, GetSteps(r));
    var s := Run(START, before);
    RunFour(s, GetSteps(r));
  }

  /** A writer of window w has come and gone; the view still holds w. */
  lemma WriterGone(w: Hwnd) returns (schedule: seq<Action>)
    ensures Run(START, schedule) == State(None, 0, w, {w}, map[1 := Idle], map[1 := []])
  {
    schedule := [Window(w, true), Acquire(1, w), Publish(1), Release(1)];
    RunFour(START, schedule);
    var s1 := State(None, 0, 0, {w}, map[], map[]);
    assert Apply(START, schedule[0]) == s1;
    var s2 := State(Some(1), 1, 0, {w}, map[1 := Acquired(w)], map[]);
    var s3 := State(Some(1), 1, w, {w}, map[1 := Idle], map[1 := [w]]);
    assert [] + [w] == [w];
  }

  /** After the writer has gone, one reader's probe makes another return the old window. */
  lemma StaleOverride(w: Hwnd) returns (schedule: seq<Action>)
    ensures var s := Run(START, schedule);
      PcOf(s, 3) == Returned(w) && PcOf(s, 2) == Probing && (forall t: nat :: HeldBy(s, t) == [])
  {
    var gone := WriterGone(w);
    var probe := [BeginGet(2), TryLock(2)];
    RunConcat(START, gone, probe);
    RunTwo(Run(START, gone), BeginGet(2), TryLock(2));
    ReadsView(gone + probe, 3);
    schedule := gone + probe + GetSteps(3);
  }

  /** So does the next writer, between its acquire and its store: a reader returns the last one's window. */
  lemma StaleWhileConstructing(w: Hwnd, x: Hwnd) returns (schedule: seq<Action>)
    ensures var s := Run(START, schedule);
      PcOf(s, 3) == Returned(w) && PcOf(s, 2) == Acquired(x) && (forall t: nat :: HeldBy(s, t) == [])
  {
    var gone := WriterGone(w);
    RunConcat(START, gone, [Acquire(2, x)]);
    assert [Acquire(2, x)][..0] == [];
    ReadsView(gone + [Acquire(2, x)], 3);
    schedule := gone + [Acquire(2, x)] + GetSteps(3);
  }

  /** And so does an outer writer after an inner one on its thread: the view keeps the inner window. */
  lemma StaleInnerWriter(v: Hwnd, w: Hwnd) returns (schedule: seq<Action>)
    ensures var s := Run(START, schedule); PcOf(s, 3) == Returned(w) && HeldBy(s, 1) == [v]
  {
    var both := SameThreadWritersCoexist(1, v, w);
    var more := [Window(w, true), Release(1)];
    RunConcat(START, both, more);
    RunTwo(Run(START, both), Window(w, true), Release(1));
    var s0 := Run(START, both);
    var s1 := Apply(s0, Window(w, true));
    assert PcOf(s0, 1).Idle? && PcOf(s0, 3).Idle?;
    assert Apply(s1, Release(1)) == Unlock(s1).(held := s1.held[1 := [v, w][..1]]);
    assert [v, w][..1] == [v];
    ReadsView(both + more, 3);
    schedule := both + more + GetSteps(3);
  }
}
