/** How Push, Pop and Peek end, told from the history of the queue alone. */
module QueueEndings {
  import opened ProducerConsumerQueues
  import opened QueueRuns

  /** How many of the elements ever pushed are still ahead of the head. */
  function Left<T>(s: State<T>): int {
    s.start + |s.pushed| - s.core.head
  }

  /** The element at a position. */
  function At<T>(s: State<T>, pos: nat): T
    requires s.start <= pos < s.start + |s.pushed|
  {
    s.pushed[pos - s.start]
  }

  function Placed<T>(s: State<T>, pos: nat): (nat, T)
    requires s.start <= pos < s.start + |s.pushed|
  {
    (pos, At(s, pos))
  }

  // ---------------------------------------------------------------- one stretch

  /** Pop yields the element at the head whenever one is left, stopped or not; it returns STOPPED exactly if none is
      left and the queue is stopped, and else blocks. */
  lemma PopEnds<T>(s: State<T>, woken: bool)
    requires Contents(s)
    ensures var r := PopStretch(s.core, woken);
            && r.core.capacity == s.core.capacity && r.core.stopped == s.core.stopped
            && (if Left(s) > 0 then r.ending == Yields(At(s, s.core.head)) && r.core.head == s.core.head + 1
                else r.core == s.core && r.ending == if s.core.stopped then Returns(STOPPED) else Blocks)
            && (r.notFull <==> 0 < Left(s) == s.core.capacity)
            && (r.notEmpty <==> woken && Left(s) > 1) && !r.newElement
  {
  }

  /** Push returns STOPPED exactly if the queue is stopped; else it blocks if there is a capacity and as many elements
      are left, and else pushes. */
  lemma PushEnds<T>(s: State<T>, e: T, woken: bool)
    requires Contents(s)
    ensures var r := PushStretch(s.core, e, woken);
            && r.core.capacity == s.core.capacity && r.core.stopped == s.core.stopped && r.core.head == s.core.head
            && (if s.core.stopped then r.ending == Returns(STOPPED) && r.core == s.core
                else if 0 < s.core.capacity == Left(s) then r.ending == Blocks && r.core == s.core
                else r.ending == Returns(OK) && r.core.q == s.core.q + [e])
            && (r.newElement <==> r.ending == Returns(OK))
            && (r.notEmpty <==> r.ending == Returns(OK) && Left(s) == 0)
            && (r.notFull <==> r.ending == Returns(OK) && woken && Left(s) + 1 != s.core.capacity)
  {
  }

  /** Peek refuses a position before the head on entry; it waits, or returns STOPPED, exactly if the position has not
      been pushed, and else yields the element there unless the head has passed it. With a capacity it moves the
      head to capacity / 2 before the position, or as far as elements were pushed. */
  lemma PeekEnds<T>(s: State<T>, pos: nat, woken: bool)
    requires Contents(s)
    ensures var r := PeekStretch(s.core, pos, woken);
            var end, target := s.start + |s.pushed|, pos - s.core.capacity / 2;
            && r.core.capacity == s.core.capacity && r.core.stopped == s.core.stopped
            && r.ending == (if !woken && pos < s.core.head then Returns(INVALID_ARGUMENT)
                            else if pos >= end then (if s.core.stopped then Returns(STOPPED) else Blocks)
                            else if pos < s.core.head then Undefined
                            else Yields(At(s, pos)))
            && r.core.head == (if s.core.capacity == 0 || target <= s.core.head then s.core.head
                               else if target < end then target else end)
            && (r.notFull <==> 0 < s.core.capacity == Left(s) && target > s.core.head)
            && !r.notEmpty && (r.newElement <==> woken && r.ending.Yields?)
  {
    hide Slide;
    SlideEnds(s, pos);
  }

  lemma SlideEnds<T>(s: State<T>, pos: nat)
    requires Contents(s)
    ensures var c := Slide(s.core, pos);
            var end, target := s.start + |s.pushed|, pos - s.core.capacity / 2;
            && c.capacity == s.core.capacity && c.stopped == s.core.stopped
            && c.head == (if s.core.capacity == 0 || target <= s.core.head then s.core.head
                          else if target < end then target else end)
            && c.q == s.pushed[c.head - s.start..]
  {
    SlideHolds(s.core, pos, s.start, s.pushed);
  }

  // ---------------------------------------------------------------- whole runs

  lemma StateHolds<T>(states: seq<State<T>>, steps: seq<Step<T>>, i: nat)
    requires IsRun(states, steps) && i < |steps|
    ensures Contents(states[i]) && Left(states[i]) >= 0
    ensures Enabled(states[i], steps[i]) && states[i + 1] == Next(states[i], steps[i])
  {
    EveryRunKeepsInv(states, steps, i);
  }

  /** In every run, every Pop takes the element at the head and returns, if one is left; else it leaves the queue as
      it is, and the thread waits unless the queue is stopped or its time is up. */
  lemma EveryPop<T>(states: seq<State<T>>, steps: seq<Step<T>>, i: nat)
    requires IsRun(states, steps) && i < |steps| && steps[i].Run? && steps[i].op == Pop
    ensures var s, s', a := states[i], states[i + 1], steps[i];
            && s'.pushed == s.pushed && a.t in s'.threads
            && (if Left(s) > 0
                then && s.start <= s.core.head < s.start + |s.pushed|
                     && s'.popped == s.popped + [(s.core.head, At(s, s.core.head))]
                     && s'.core.head == s.core.head + 1
                     && s'.threads[a.t] == Idle
                else && s'.popped == s.popped && s'.core == s.core
                     && s'.threads[a.t] == if s.core.stopped || a.givesUp then Idle else PopWaiting)
  {
    var s, a := states[i], steps[i];
    StateHolds(states, steps, i);
    RunningThread(s, a);
    PopEnds(s, s.threads[a.t].PopWoken?);
  }

  /** In every run, every Push adds its element and returns if the queue is not stopped and has room; else it leaves
      the queue as it is, and the thread waits unless the queue is stopped or its time is up. */
  lemma EveryPush<T>(states: seq<State<T>>, steps: seq<Step<T>>, i: nat)
    requires IsRun(states, steps) && i < |steps| && steps[i].Run? && steps[i].op.Push?
    ensures var s, s', a := states[i], states[i + 1], steps[i];
            && s'.popped == s.popped && s'.core.head == s.core.head && a.t in s'.threads
            && (if !s.core.stopped && (s.core.capacity == 0 || Left(s) < s.core.capacity)
                then s'.pushed == s.pushed + [a.op.element] && s'.threads[a.t] == Idle
                else && s'.pushed == s.pushed && s'.core == s.core
                     && s'.threads[a.t]
                        == if s.core.stopped || a.givesUp then Idle else PushWaiting(a.op.element))
  {
    var s, a := states[i], steps[i];
    StateHolds(states, steps, i);
    RunningThread(s, a);
    PushEnds(s, a.op.element, s.threads[a.t].PushWoken?);
  }

  /** In every run, a Peek waits exactly if its position has not been pushed, the queue is not stopped, and there is
      time left. */
  lemma EveryPeek<T>(states: seq<State<T>>, steps: seq<Step<T>>, i: nat)
    requires IsRun(states, steps) && i < |steps| && steps[i].Run? && steps[i].op.Peek?
    ensures var s, s', a := states[i], states[i + 1], steps[i];
            && s'.pushed == s.pushed && s'.popped == s.popped && a.t in s'.threads
            && s'.threads[a.t]
               == if a.op.pos >= s.start + |s.pushed| && !s.core.stopped && !a.givesUp then PeekWaiting(a.op.pos)
                  else Idle
  {
    var s, a := states[i], steps[i];
    StateHolds(states, steps, i);
    RunningThread(s, a);
    PeekEnds(s, a.op.pos, s.threads[a.t].PeekWoken?);
  }

  /** The next n elements from the head on, with their positions. */
  function Following<T>(s: State<T>, n: nat): seq<(nat, T)>
    requires s.start <= s.core.head && s.core.head + n <= s.start + |s.pushed|
  {
    seq<(nat, T)>(n, k requires 0 <= k < n => Placed(s, s.core.head + k))
  }

  lemma FollowingNone<T>(s: State<T>, popped: seq<(nat, T)>)
    requires s.start <= s.core.head && s.core.head <= s.start + |s.pushed|
    ensures popped + Following(s, 0) == popped
  {
  }

  lemma FollowingOne<T>(s: State<T>, n: nat, popped: seq<(nat, T)>)
    requires s.start <= s.core.head && s.core.head + n < s.start + |s.pushed|
    ensures popped + Following(s, n + 1)
            == (popped + Following(s, n)) + [Placed(s, s.core.head + n)]
  {
  }

  /** Once stopped, the queue hands out what it still holds: as many Pops as elements are left return them in order,
      and the next one returns STOPPED. */
  lemma {:induction false} StoppedQueueDrains<T>(states: seq<State<T>>, steps: seq<Step<T>>, i: nat, n: nat)
    requires IsRun(states, steps) && i + n < |states| && states[i].core.stopped && n <= Left(states[i])
    requires forall k :: i <= k < i + n ==> steps[k].Run? && steps[k].op == Pop
    ensures var s, s' := states[i], states[i + n];
            && s.start <= s.core.head && s'.start == s.start && s'.pushed == s.pushed
            && s'.popped == s.popped + Following(s, n)
            && s'.core.head == s.core.head + n
            && (n == Left(s) ==> forall woken :: PopStretch(s'.core, woken).ending == Returns(STOPPED))
    decreases n
  {
    hide Enabled, Next, Following, PopStretch;
    var s, s' := states[i], states[i + n];
    EveryRunKeepsInv(states, steps, i);
    EveryRunKeepsInv(states, steps, i + n);
    if n == 0 {
      FollowingNone(s, s.popped);
    } else {
      var t := states[i + n - 1];
      StoppedQueueDrains(states, steps, i, n - 1);
      EveryPop(states, steps, i + n - 1);
      SameStart(states, steps, i + n - 1);
      FollowingOne(s, n - 1, s.popped);
    }
    StoppedForGood(states, steps, i, i + n);
    if n == Left(s) {
      PopEnds(s', true);
      PopEnds(s', false);
    }
  }

  lemma SameStart<T>(states: seq<State<T>>, steps: seq<Step<T>>, i: nat)
    requires IsRun(states, steps) && i < |steps|
    ensures states[i + 1].start == states[i].start
  {
  }
}
