/** Every interleaving of Push, Pop, Peek, Stop, timeouts and spurious wake-ups on one queue. */
module QueueRuns {
  import opened ProducerConsumerQueues

  type Tid = nat

  /** Where a thread stands: outside the queue, in a wait set, or taken out of one and about to go on. */
  datatype Pc<T> =
    | Idle
    | PushWaiting(element: T) | PushWoken(element: T)
    | PopWaiting | PopWoken
    | PeekWaiting(pos: nat) | PeekWoken(pos: nat)

  predicate WaitsOn<T>(pc: Pc<T>, cv: Cv) {
    match cv
    case NotEmpty => pc.PopWaiting?
    case NotFull => pc.PushWaiting?
    case NewElement => pc.PeekWaiting?
  }

  predicate WokenFrom<T>(pc: Pc<T>, cv: Cv) {
    match cv
    case NotEmpty => pc.PopWoken?
    case NotFull => pc.PushWoken?
    case NewElement => pc.PeekWoken?
  }

  function Woken<T>(pc: Pc<T>): Pc<T> {
    match pc
    case PushWaiting(e) => PushWoken(e)
    case PopWaiting => PopWoken
    case PeekWaiting(pos) => PeekWoken(pos)
    case _ => pc
  }

  type Threads<T> = map<Tid, Pc<T>>

  ghost predicate SomeWaits<T>(ts: Threads<T>, cv: Cv) {
    exists t :: t in ts && WaitsOn(ts[t], cv)
  }

  ghost predicate SomeWoken<T>(ts: Threads<T>, cv: Cv) {
    exists t :: t in ts && WokenFrom(ts[t], cv)
  }

  /** The queue, its threads, and what has happened to it: the elements ever pushed, and the position and
      element of every Pop, in order. */
  datatype State<T> = State(core: Core<T>, threads: Threads<T>, start: nat, pushed: seq<T>, popped: seq<(nat, T)>)

  /** Whom a signalled condition variable wakes. */
  datatype Choice = NoOne | Thread(t: Tid)

  datatype Op<T> = Push(element: T) | Pop | Peek(pos: nat)

  /** One step: a thread runs one stretch of an operation under the lock (giving up if it would wait and its
      time is up), or Stop is called, or a waiting thread wakes up without being signalled. */
  datatype Step<T> =
    | Run(t: Tid, op: Op<T>, givesUp: bool, popper: Choice, pusher: Choice, peeker: Choice)
    | Stop
    | WakeUp(t: Tid)

  /** Signal wakes any one thread of the wait set, if there is one. */
  ghost predicate Picks<T>(ts: Threads<T>, cv: Cv, signalled: bool, choice: Choice) {
    match choice
    case NoOne => signalled ==> !SomeWaits(ts, cv)
    case Thread(t) => signalled && t in ts && WaitsOn(ts[t], cv)
  }

  function WakeOne<T>(ts: Threads<T>, choice: Choice): (r: Threads<T>)
    requires choice.Thread? ==> choice.t in ts
    ensures r.Keys == ts.Keys
  {
    if choice.NoOne? then ts else ts[choice.t := Woken(ts[choice.t])]
  }

  function WakeAll<T>(ts: Threads<T>): (r: Threads<T>)
    ensures r.Keys == ts.Keys
  {
    map t | t in ts :: Woken(ts[t])
  }

  function StretchOf<T>(core: Core<T>, pc: Pc<T>, op: Op<T>): Stretch<T> {
    match op
    case Push(e) => PushStretch(core, e, pc.PushWoken?)
    case Pop => PopStretch(core, pc.PopWoken?)
    case Peek(pos) => PeekStretch(core, pos, pc.PeekWoken?)
  }

  /** Where the thread stands after its stretch. */
  function After<T>(op: Op<T>, givesUp: bool, ending: Ending<T>): Pc<T> {
    if !ending.Blocks? || givesUp then Idle
    else
      match op
      case Push(e) => PushWaiting(e)
      case Pop => PopWaiting
      case Peek(pos) => PeekWaiting(pos)
  }

  /** A thread may start any operation, and may only go on with the one it was waiting in. */
  ghost predicate MayRun<T>(pc: Pc<T>, op: Op<T>) {
    match op
    case Push(e) => pc == Idle || pc == PushWoken(e)
    case Pop => pc == Idle || pc == PopWoken
    case Peek(pos) => pc == Idle || pc == PeekWoken(pos)
  }

  ghost predicate Enabled<T>(s: State<T>, a: Step<T>) {
    match a
    case Run(t, op, _, popper, pusher, peeker) =>
      && t in s.threads
      && MayRun(s.threads[t], op)
      && var r := StretchOf(s.core, s.threads[t], op);
         && Picks(s.threads, NotEmpty, r.notEmpty, popper)
         && Picks(s.threads, NotFull, r.notFull, pusher)
         && Picks(s.threads, NewElement, r.newElement, peeker)
    case Stop => true
    case WakeUp(t) => t in s.threads && exists cv :: WaitsOn(s.threads[t], cv)
  }

  ghost function Next<T>(s: State<T>, a: Step<T>): (s': State<T>)
    requires Enabled(s, a)
  {
    match a
    case Run(t, op, givesUp, popper, pusher, peeker) =>
      var r := StretchOf(s.core, s.threads[t], op);
      var ts := WakeOne(WakeOne(WakeOne(s.threads, popper), pusher), peeker);
      State(r.core,
            ts[t := After(op, givesUp, r.ending)],
            s.start,
            if op.Push? && r.ending == Returns(OK) then s.pushed + [op.element] else s.pushed,
            if op.Pop? && r.ending.Yields? then s.popped + [(s.core.head, r.ending.element)] else s.popped)
    case Stop => s.(core := s.core.(stopped := true), threads := WakeAll(s.threads))
    case WakeUp(t) => s.(threads := s.threads[t := Woken(s.threads[t])])
  }

  ghost predicate Initial<T>(s: State<T>) {
    && s.core == Core(s.core.capacity, s.start, [], false)
    && (forall t :: t in s.threads ==> s.threads[t] == Idle)
    && s.pushed == [] && s.popped == []
  }

  /** A run and every state it goes through. */
  ghost predicate IsRun<T>(states: seq<State<T>>, steps: seq<Step<T>>) {
    && |states| == |steps| + 1
    && Initial(states[0])
    && forall i :: 0 <= i < |steps| ==> Enabled(states[i], steps[i]) && states[i + 1] == Next(states[i], steps[i])
  }

  // ---------------------------------------------------------------- what every step keeps

  /** The queue holds exactly the pushed elements from its head position on, within capacity. */
  ghost predicate Holds<T>(core: Core<T>, start: nat, pushed: seq<T>) {
    && start <= core.head <= start + |pushed|
    && core.q == pushed[core.head - start..]
    && (core.capacity != 0 ==> |core.q| <= core.capacity)
  }

  ghost predicate Contents<T>(s: State<T>) {
    Holds(s.core, s.start, s.pushed)
  }

  /** Pops come out in push order. */
  ghost predicate InOrder<T>(s: State<T>) {
    && (forall i :: 0 <= i < |s.popped| ==>
          s.start <= s.popped[i].0 < s.core.head && s.popped[i].0 - s.start < |s.pushed|
          && s.popped[i].1 == s.pushed[s.popped[i].0 - s.start])
    && (forall i, j :: 0 <= i < j < |s.popped| ==> s.popped[i].0 < s.popped[j].0)
  }

  /** No lost wake-up, and nobody waits once the queue is stopped. */
  ghost predicate NoLostWakeUp<T>(s: State<T>) {
    && (SomeWaits(s.threads, NotEmpty) && s.core.q != [] ==> SomeWoken(s.threads, NotEmpty))
    && (SomeWaits(s.threads, NotFull) && !s.core.Full() ==> SomeWoken(s.threads, NotFull))
    && (s.core.stopped ==> forall cv :: !SomeWaits(s.threads, cv))
  }

  ghost predicate Inv<T>(s: State<T>) {
    Contents(s) && InOrder(s) && NoLostWakeUp(s)
  }

  lemma InitialInv<T>(s: State<T>)
    requires Initial(s)
    ensures Inv(s)
  {
  }

  function PushedBy<T>(op: Op<T>, ending: Ending<T>): seq<T> {
    if op.Push? && ending == Returns(OK) then [op.element] else []
  }

  lemma PushHolds<T>(core: Core<T>, e: T, woken: bool, start: nat, pushed: seq<T>)
    requires Holds(core, start, pushed)
    ensures var r := PushStretch(core, e, woken);
            Holds(r.core, start, pushed + PushedBy(Push(e), r.ending)) && core.head == r.core.head
  {
    if core.stopped || core.Full() {
      assert pushed + [] == pushed;
    }
  }

  lemma PopHolds<T>(core: Core<T>, woken: bool, start: nat, pushed: seq<T>)
    requires Holds(core, start, pushed)
    ensures var r := PopStretch(core, woken); Holds(r.core, start, pushed) && core.head <= r.core.head
  {
    if core.q != [] {
      assert core.q[1..] == pushed[core.head - start + 1..];
    }
  }

  lemma SlideHolds<T>(core: Core<T>, pos: nat, start: nat, pushed: seq<T>)
    requires Holds(core, start, pushed)
    ensures Holds(Slide(core, pos), start, pushed) && core.head <= Slide(core, pos).head
  {
    hide Dropped;
    var k := Dropped(core, pos);
    assert core.q[k..] == pushed[core.head - start + k..];
  }

  lemma PeekHolds<T>(core: Core<T>, pos: nat, woken: bool, start: nat, pushed: seq<T>)
    requires Holds(core, start, pushed)
    ensures var r := PeekStretch(core, pos, woken); Holds(r.core, start, pushed) && core.head <= r.core.head
  {
    hide Holds, Slide;
    SlideHolds(core, pos, start, pushed);
  }

  lemma StretchHolds<T>(core: Core<T>, pc: Pc<T>, op: Op<T>, start: nat, pushed: seq<T>)
    requires Holds(core, start, pushed)
    ensures var r := StretchOf(core, pc, op);
            Holds(r.core, start, pushed + PushedBy(op, r.ending)) && core.head <= r.core.head
  {
    hide Holds, PushStretch, PopStretch, PeekStretch;
    match op
    case Push(e) => PushHolds(core, e, pc.PushWoken?, start, pushed);
    case Pop => PopHolds(core, pc.PopWoken?, start, pushed); assert pushed + [] == pushed;
    case Peek(pos) => PeekHolds(core, pos, pc.PeekWoken?, start, pushed); assert pushed + [] == pushed;
  }

  lemma RunContents<T>(s: State<T>, a: Step<T>)
    requires Enabled(s, a) && a.Run? && Contents(s)
    ensures var s' := Next(s, a);
            && Contents(s')
            && s.core.head <= s'.core.head
            && s'.start == s.start
            && s'.pushed == s.pushed + PushedBy(a.op, StretchOf(s.core, s.threads[a.t], a.op).ending)
  {
    hide StretchOf, Holds, Picks, WakeOne, After;
    assert s.pushed + [] == s.pushed;
    StretchHolds(s.core, s.threads[a.t], a.op, s.start, s.pushed);
  }

  /** The order of pops survives any growth of the history, and a new pop at the head. */
  lemma OrderExtends<T>(s: State<T>, s': State<T>)
    requires InOrder(s) && s.start == s'.start && s.pushed <= s'.pushed && s.core.head <= s'.core.head
    requires || s'.popped == s.popped
             || (&& s.core.head < s'.core.head
                 && s.start <= s.core.head < s.start + |s.pushed|
                 && s'.popped == s.popped + [(s.core.head, s.pushed[s.core.head - s.start])])
    ensures InOrder(s')
  {
  }

  lemma RunInOrder<T>(s: State<T>, a: Step<T>)
    requires Enabled(s, a) && a.Run? && Contents(s) && InOrder(s)
    ensures InOrder(Next(s, a))
  {
    hide InOrder, Picks, WakeOne, After, PushStretch, PeekStretch;
    var s' := Next(s, a);
    RunContents(s, a);
    assert s.pushed <= s'.pushed;
    if a.op.Pop? && s.core.q != [] {
      assert s.core.q[0] == s.pushed[s.core.head - s.start];
    }
    OrderExtends(s, s');
  }

  // ---------------------------------------------------------------- wake-ups

  function ChoiceOf<T>(a: Step<T>, cv: Cv): Choice
    requires a.Run?
  {
    match cv case NotEmpty => a.popper case NotFull => a.pusher case NewElement => a.peeker
  }

  function Signalled<T>(r: Stretch<T>, cv: Cv): bool {
    match cv case NotEmpty => r.notEmpty case NotFull => r.notFull case NewElement => r.newElement
  }

  /** What a step does to another thread: nothing, or wake it from what it waits on. */
  lemma OtherThread<T>(s: State<T>, a: Step<T>, x: Tid)
    requires Enabled(s, a) && a.Run? && x in s.threads && x != a.t
    ensures var ts := Next(s, a).threads;
            && x in ts
            && (ts[x] == s.threads[x] || ts[x] == Woken(s.threads[x]))
            && forall cv :: ChoiceOf(a, cv) == Thread(x) ==> ts[x] == Woken(s.threads[x])
  {
    hide StretchOf, After;
  }

  lemma RunningThread<T>(s: State<T>, a: Step<T>)
    requires Enabled(s, a) && a.Run?
    ensures var ts := Next(s, a).threads;
            && ts.Keys == s.threads.Keys
            && ts[a.t] == After(a.op, a.givesUp, StretchOf(s.core, s.threads[a.t], a.op).ending)
            && forall cv :: !WaitsOn(s.threads[a.t], cv)
  {
    hide StretchOf, After, Picks;
  }

  /** A signal reaches a waiter if there is one. */
  lemma SignalReaches<T>(s: State<T>, a: Step<T>, cv: Cv)
    requires Enabled(s, a) && a.Run?
    requires Signalled(StretchOf(s.core, s.threads[a.t], a.op), cv) && SomeWaits(s.threads, cv)
    ensures SomeWoken(Next(s, a).threads, cv)
  {
    hide StretchOf, Next;
    RunningThread(s, a);
    var w := ChoiceOf(a, cv).t;
    OtherThread(s, a, w);
    assert WokenFrom(Next(s, a).threads[w], cv);
  }

  /** Woken threads other than the running one stay woken. */
  lemma WokenStays<T>(s: State<T>, a: Step<T>, cv: Cv)
    requires Enabled(s, a) && a.Run? && SomeWoken(s.threads, cv) && !WokenFrom(s.threads[a.t], cv)
    ensures SomeWoken(Next(s, a).threads, cv)
  {
    hide StretchOf, Next, Picks;
    var x :| x in s.threads && WokenFrom(s.threads[x], cv);
    OtherThread(s, a, x);
    assert WokenFrom(Next(s, a).threads[x], cv);
  }

  /** Only the running thread can start to wait. */
  lemma NewWaiter<T>(s: State<T>, a: Step<T>, cv: Cv)
    requires Enabled(s, a) && a.Run? && SomeWaits(Next(s, a).threads, cv)
    ensures || SomeWaits(s.threads, cv)
            || WaitsOn(After(a.op, a.givesUp, StretchOf(s.core, s.threads[a.t], a.op).ending), cv)
  {
    hide StretchOf, Next, Picks, After;
    RunningThread(s, a);
    var ts' := Next(s, a).threads;
    var x :| x in ts' && WaitsOn(ts'[x], cv);
    if x != a.t {
      OtherThread(s, a, x);
      assert WaitsOn(s.threads[x], cv);
    }
  }

  /** A waiting popper with something to pop has a woken popper ahead of it. */
  lemma PoppersKept<T>(s: State<T>, a: Step<T>)
    requires Enabled(s, a) && a.Run? && NoLostWakeUp(s)
    requires SomeWaits(Next(s, a).threads, NotEmpty) && Next(s, a).core.q != []
    ensures SomeWoken(Next(s, a).threads, NotEmpty)
  {
    hide Picks, WakeOne, SomeWaits, SomeWoken;
    if !SomeWaits(s.threads, NotEmpty) {
      NewWaiter(s, a, NotEmpty);
    } else if Signalled(StretchOf(s.core, s.threads[a.t], a.op), NotEmpty) {
      SignalReaches(s, a, NotEmpty);
    } else {
      WokenStays(s, a, NotEmpty);
    }
  }

  /** A waiting pusher with room to push has a woken pusher ahead of it. */
  lemma PushersKept<T>(s: State<T>, a: Step<T>)
    requires Enabled(s, a) && a.Run? && NoLostWakeUp(s)
    requires SomeWaits(Next(s, a).threads, NotFull) && !Next(s, a).core.Full()
    ensures SomeWoken(Next(s, a).threads, NotFull)
  {
    hide Picks, WakeOne, SomeWaits, SomeWoken;
    if !SomeWaits(s.threads, NotFull) {
      NewWaiter(s, a, NotFull);
    } else if Signalled(StretchOf(s.core, s.threads[a.t], a.op), NotFull) {
      SignalReaches(s, a, NotFull);
    } else {
      WokenStays(s, a, NotFull);
    }
  }

  lemma RunNoLostWakeUp<T>(s: State<T>, a: Step<T>)
    requires Enabled(s, a) && a.Run? && NoLostWakeUp(s)
    ensures NoLostWakeUp(Next(s, a))
  {
    var s' := Next(s, a);
    if SomeWaits(s'.threads, NotEmpty) && s'.core.q != [] {
      PoppersKept(s, a);
    }
    if SomeWaits(s'.threads, NotFull) && !s'.core.Full() {
      PushersKept(s, a);
    }
    if s'.core.stopped {
      forall cv
        ensures !SomeWaits(s'.threads, cv)
      {
        if SomeWaits(s'.threads, cv) {
          NewWaiter(s, a, cv);
        }
      }
    }
  }

  lemma StopInv<T>(s: State<T>)
    requires Inv(s)
    ensures Inv(Next(s, Stop))
  {
    var s' := Next(s, Stop);
    forall cv
      ensures !SomeWaits(s'.threads, cv)
    {
    }
  }

  lemma WakeUpInv<T>(s: State<T>, t: Tid)
    requires Inv(s) && Enabled(s, WakeUp(t))
    ensures Inv(Next(s, WakeUp(t)))
  {
    var s' := Next(s, WakeUp(t));
    var mine :| WaitsOn(s.threads[t], mine);
    forall cv
      ensures SomeWaits(s'.threads, cv) ==> SomeWaits(s.threads, cv)
      ensures SomeWaits(s'.threads, cv) && SomeWoken(s.threads, cv) ==> SomeWoken(s'.threads, cv)
    {
      if SomeWaits(s'.threads, cv) {
        var x :| x in s'.threads && WaitsOn(s'.threads[x], cv);
        assert WaitsOn(s.threads[x], cv);
      }
      if SomeWoken(s.threads, cv) {
        var x :| x in s.threads && WokenFrom(s.threads[x], cv);
        assert WokenFrom(s'.threads[x], cv);
      }
    }
  }

  lemma StepInv<T>(s: State<T>, a: Step<T>)
    requires Inv(s) && Enabled(s, a)
    ensures Inv(Next(s, a))
  {
    match a {
      case Run(_, _, _, _, _, _) =>
        RunContents(s, a);
        RunInOrder(s, a);
        RunNoLostWakeUp(s, a);
      case Stop => StopInv(s);
      case WakeUp(t) => WakeUpInv(s, t);
    }
  }

  // ---------------------------------------------------------------- whole runs

  /** In every state of every run the queue holds the pushed history from its head on, within capacity, pops
      have come out in push order, and no wake-up is lost. */
  lemma {:induction false} EveryRunKeepsInv<T>(states: seq<State<T>>, steps: seq<Step<T>>, i: nat)
    requires IsRun(states, steps) && i < |states|
    ensures Inv(states[i])
  {
    hide Inv, Enabled, Next;
    if i == 0 {
      InitialInv(states[0]);
    } else {
      EveryRunKeepsInv(states, steps, i - 1);
      StepInv(states[i - 1], steps[i - 1]);
    }
  }

  /** Poppers and pushers cannot all be stuck: if none of them has been woken, one of the two wait sets is
      empty. */
  lemma NoStandoff<T>(states: seq<State<T>>, steps: seq<Step<T>>, i: nat)
    requires IsRun(states, steps) && i < |states|
    requires !SomeWoken(states[i].threads, NotEmpty) && !SomeWoken(states[i].threads, NotFull)
    ensures !SomeWaits(states[i].threads, NotEmpty) || !SomeWaits(states[i].threads, NotFull)
  {
    EveryRunKeepsInv(states, steps, i);
  }

  /** Positions only grow: what has been pushed stays, and head plus size is start plus pushes. */
  lemma HistoryGrows<T>(s: State<T>, a: Step<T>)
    requires Inv(s) && Enabled(s, a)
    ensures var s' := Next(s, a);
            && s.pushed <= s'.pushed && s.core.head <= s'.core.head
            && s'.core.head + |s'.core.q| == s'.start + |s'.pushed|
            && (s.core.stopped ==> s'.core.stopped && s'.pushed == s.pushed)
  {
    StepInv(s, a);
    if a.Run? {
      RunContents(s, a);
    }
  }

  /** After Stop nothing more is pushed and nobody ever waits again. */
  lemma {:induction false} StoppedForGood<T>(states: seq<State<T>>, steps: seq<Step<T>>, i: nat, j: nat)
    requires IsRun(states, steps) && i <= j < |states| && states[i].core.stopped
    ensures states[j].core.stopped && states[j].pushed == states[i].pushed
    ensures forall cv :: !SomeWaits(states[j].threads, cv)
  {
    hide Enabled, Next;
    EveryRunKeepsInv(states, steps, j);
    if i < j {
      StoppedForGood(states, steps, i, j - 1);
      EveryRunKeepsInv(states, steps, j - 1);
      HistoryGrows(states[j - 1], steps[j - 1]);
    }
  }

  /** A Peek that has waited reads the element at its position, unless the head has passed it meanwhile: then,
      and only then, it reads outside the queue. */
  lemma ResumedPeek<T>(s: State<T>, pos: nat, woken: bool)
    requires Contents(s)
    ensures var r := PeekStretch(s.core, pos, woken);
            && (r.ending.Undefined? <==> woken && pos < s.core.head)
            && (r.ending.Yields? ==>
                  s.start <= pos < s.start + |s.pushed| && r.ending.element == s.pushed[pos - s.start])
  {
    var k := Dropped(s.core, pos);
    assert s.core.q[k..] == s.pushed[s.core.head - s.start + k..];
  }

  // ---------------------------------------------------------------- a lone peeker

  ghost predicate OnePeekerWaits<T>(ts: Threads<T>) {
    forall t, t' :: t in ts && t' in ts && WaitsOn(ts[t], NewElement) && WaitsOn(ts[t'], NewElement) ==> t == t'
  }

  /** Whoever waits in Peek waits for an element that has not been pushed. */
  ghost predicate PeekersAhead<T>(s: State<T>) {
    forall t :: t in s.threads && s.threads[t].PeekWaiting? ==> s.threads[t].pos >= s.core.head + |s.core.q|
  }

  lemma TailMoves<T>(core: Core<T>, pc: Pc<T>, op: Op<T>)
    ensures var r := StretchOf(core, pc, op);
            && r.core.head + |r.core.q| == core.head + |core.q| + |PushedBy(op, r.ending)|
            && (PushedBy(op, r.ending) != [] ==> r.newElement)
            && (op.Peek? && r.ending.Blocks? ==> op.pos >= r.core.head + |r.core.q|)
  {
  }

  lemma RunPeekersAhead<T>(s: State<T>, a: Step<T>)
    requires Enabled(s, a) && a.Run? && OnePeekerWaits(s.threads) && PeekersAhead(s)
    ensures PeekersAhead(Next(s, a))
  {
    var s' := Next(s, a);
    TailMoves(s.core, s.threads[a.t], a.op);
    RunningThread(s, a);
    forall x | x in s'.threads && s'.threads[x].PeekWaiting?
      ensures s'.threads[x].pos >= s'.core.head + |s'.core.q|
    {
      if x != a.t {
        OtherThread(s, a, x);
        if a.peeker.Thread? {
          assert ChoiceOf(a, NewElement) == a.peeker;
          assert WaitsOn(s.threads[x], NewElement) && WaitsOn(s.threads[a.peeker.t], NewElement);
        } else {
          assert WaitsOn(s.threads[x], NewElement) && SomeWaits(s.threads, NewElement);
        }
      }
    }
  }

  /** In every run in which never more than one thread waits in Peek, none waits for an element that is there:
      every push wakes the one that waits. */
  lemma {:induction false} LonePeekerNotStuck<T>(states: seq<State<T>>, steps: seq<Step<T>>, i: nat)
    requires IsRun(states, steps) && i < |states|
    requires forall k :: 0 <= k < i ==> OnePeekerWaits(states[k].threads)
    ensures PeekersAhead(states[i])
  {
    if i > 0 {
      LonePeekerNotStuck(states, steps, i - 1);
      assert Enabled(states[i - 1], steps[i - 1]) && states[i] == Next(states[i - 1], steps[i - 1]);
      if steps[i - 1].Run? {
        hide Enabled, Next, PeekersAhead, OnePeekerWaits;
        RunPeekersAhead(states[i - 1], steps[i - 1]);
      }
    }
  }

  // ---------------------------------------------------------------- a peeker overtaken

  // It does happen: a popper takes the element between the peeker's wake-up and its turn.

  function ThreeThreads<T>(peeker: Pc<T>): Threads<T> {
    map[0 := peeker, 1 := Idle, 2 := Idle]
  }

  lemma PeekerWaits<T>()
    ensures var s: State<T> := State(Core(2, 0, [], false), ThreeThreads(Idle), 0, [], []);
            var a := Run(0, Peek(0), false, NoOne, NoOne, NoOne);
            Enabled(s, a) && Next(s, a) == s.(threads := ThreeThreads(PeekWaiting(0)))
  {
    var s: State<T> := State(Core(2, 0, [], false), ThreeThreads(Idle), 0, [], []);
    assert StretchOf(s.core, s.threads[0], Peek(0)) == Stretch(s.core, Blocks, false, false, false);
  }

  lemma PeekerWakes<T>(e: T)
    ensures var s := State(Core(2, 0, [], false), ThreeThreads(PeekWaiting(0)), 0, [], []);
            var a := Run(1, Push(e), false, NoOne, NoOne, Thread(0));
            Enabled(s, a) && Next(s, a) == State(Core(2, 0, [e], false), ThreeThreads(PeekWoken(0)), 0, [e], [])
  {
    var s: State<T> := State(Core(2, 0, [], false), ThreeThreads(PeekWaiting(0)), 0, [], []);
    assert [] + [e] == [e];
    assert StretchOf(s.core, s.threads[1], Push(e)) == Stretch(Core(2, 0, [e], false), Returns(OK), true, false, true);
    assert !SomeWaits(s.threads, NotEmpty);
  }

  lemma PopperOvertakes<T>(e: T)
    ensures var s := State(Core(2, 0, [e], false), ThreeThreads(PeekWoken(0)), 0, [e], []);
            var a := Run(2, Pop, false, NoOne, NoOne, NoOne);
            Enabled(s, a) && Next(s, a) == State(Core(2, 1, [], false), ThreeThreads(PeekWoken(0)), 0, [e], [(0, e)])
  {
    var s: State<T> := State(Core(2, 0, [e], false), ThreeThreads(PeekWoken(0)), 0, [e], []);
    assert [e][1..] == [];
    assert StretchOf(s.core, s.threads[2], Pop) == Stretch(Core(2, 1, [], false), Yields(e), false, false, false);
  }

  lemma PeekCanMissItsElement<T>(e: T) returns (states: seq<State<T>>, steps: seq<Step<T>>)
    ensures IsRun(states, steps)
    ensures var last := states[|states| - 1];
            && 0 in last.threads && last.threads[0] == PeekWoken(0)
            && StretchOf(last.core, last.threads[0], Peek(0)).ending.Undefined?
  {
    hide Enabled, Next;
    var s0: State<T> := State(Core(2, 0, [], false), ThreeThreads(Idle), 0, [], []);
    var s1 := s0.(threads := ThreeThreads(PeekWaiting(0)));
    var s2 := State(Core(2, 0, [e], false), ThreeThreads(PeekWoken(0)), 0, [e], []);
    var s3 := State(Core(2, 1, [], false), ThreeThreads(PeekWoken(0)), 0, [e], [(0, e)]);
    PeekerWaits<T>();
    PeekerWakes(e);
    PopperOvertakes(e);
    states := [s0, s1, s2, s3];
    steps := [Run(0, Peek(0), false, NoOne, NoOne, NoOne), Run(1, Push(e), false, NoOne, NoOne, Thread(0)),
              Run(2, Pop, false, NoOne, NoOne, NoOne)];
  }
}
