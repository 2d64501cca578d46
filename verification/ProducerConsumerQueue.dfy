/** ProducerConsumerQueue: what a thread does between taking the lock and waiting or returning. */
module ProducerConsumerQueues {

  /** The state the lock protects. A capacity of zero means unlimited. */
  datatype Core<T> = Core(capacity: nat, head: nat, q: seq<T>, stopped: bool) {
    predicate Full() {
      capacity != 0 && |q| == capacity
    }
  }

  datatype Status = OK | STOPPED | TIME_OUT | INVALID_ARGUMENT

  datatype Cv = NotEmpty | NotFull | NewElement

  /** How a stretch under the lock ends. Blocks: at the wait (or, if the timeout has run out, returning
      TIME_OUT). Undefined: Peek reads outside the queue. */
  datatype Ending<T> = Returns(status: Status) | Yields(element: T) | Blocks | Undefined

  /** A stretch under the lock: the state it leaves, how it ends, and the condition variables signalled. */
  datatype Stretch<T> = Stretch(core: Core<T>, ending: Ending<T>, notEmpty: bool, notFull: bool, newElement: bool)

  function PushStretch<T>(s: Core<T>, element: T, woken: bool): (r: Stretch<T>) {
    if s.stopped then Stretch(s, Returns(STOPPED), false, false, false)
    else if s.Full() then Stretch(s, Blocks, false, false, false)
    else
      var q := s.q + [element];
      Stretch(s.(q := q), Returns(OK), s.q == [], woken && |q| != s.capacity, true)
  }

  function PopStretch<T>(s: Core<T>, woken: bool): (r: Stretch<T>) {
    if s.q == [] then
      Stretch(s, if s.stopped then Returns(STOPPED) else Blocks, false, false, false)
    else
      Stretch(s.(q := s.q[1..], head := s.head + 1), Yields(s.q[0]), woken && |s.q| > 1, |s.q| == s.capacity, false)
  }

  /** How many elements SlideHeadOnCenter drops: as many as there are between the head and capacity / 2
      before pos. */
  function Dropped<T>(s: Core<T>, pos: nat): (k: nat)
    ensures k <= |s.q|
  {
    var excess := pos - (s.head + s.capacity / 2);
    if s.capacity == 0 || excess <= 0 then 0 else if excess < |s.q| then excess else |s.q|
  }

  function Slide<T>(s: Core<T>, pos: nat): (r: Core<T>)
  {
    var k := Dropped(s, pos);
    s.(head := s.head + k, q := s.q[k..])
  }

  function PeekStretch<T>(s: Core<T>, pos: nat, woken: bool): (r: Stretch<T>) {
    if !woken && pos < s.head then Stretch(s, Returns(INVALID_ARGUMENT), false, false, false)
    else
      var s' := Slide(s, pos);
      var notFull := s.Full() && pos > s.head + s.capacity / 2;
      if pos >= s'.head + |s'.q| then
        Stretch(s', if s.stopped then Returns(STOPPED) else Blocks, false, notFull, false)
      else if pos < s'.head then Stretch(s', Undefined, false, notFull, false)
      else Stretch(s', Yields(s'.q[pos - s'.head]), false, notFull, woken && s'.q != [])
  }

  /** A Peek that blocks has made room: the queue is at most half full. */
  lemma BlockedPeekMadeRoom<T>(s: Core<T>, pos: nat, woken: bool)
    requires s.capacity != 0 && PeekStretch(s, pos, woken).ending.Blocks?
    ensures |PeekStretch(s, pos, woken).core.q| <= s.capacity / 2
  {
  }

  class ProducerConsumerQueue<T> {
    const capacity: nat
    var head: nat
    var q: seq<T>
    var stopped: bool

    ghost function State(): Core<T>
      reads this
    {
      Core(capacity, head, q, stopped)
    }

    constructor (capacity: nat, startingPos: nat)
      ensures State() == Core(capacity, startingPos, [], false)
    {
      this.capacity := capacity;
      head := startingPos;
      q := [];
      stopped := false;
    }

    /** Push from taking the lock, or from waking up in its wait, to the next wait or return. */
    method Push(element: T, woken: bool) returns (r: Stretch<T>)
      modifies this
      ensures r == PushStretch(old(State()), element, woken) && State() == r.core
    {
      if stopped {
        return Stretch(Core(capacity, head, q, stopped), Returns(STOPPED), false, false, false);
      }
      if capacity != 0 && |q| == capacity {
        return Stretch(Core(capacity, head, q, stopped), Blocks, false, false, false);
      }
      var notEmpty := q == [];
      q := q + [element];
      var notFull := woken && |q| != capacity;
      return Stretch(Core(capacity, head, q, stopped), Returns(OK), notEmpty, notFull, true);
    }

    method Pop(woken: bool) returns (r: Stretch<T>)
      modifies this
      ensures r == PopStretch(old(State()), woken) && State() == r.core
    {
      if q == [] {
        var ending := if stopped then Returns(STOPPED) else Blocks;
        return Stretch(Core(capacity, head, q, stopped), ending, false, false, false);
      }
      var notFull := |q| == capacity;
      var element := q[0];
      q := q[1..];
      head := head + 1;
      var notEmpty := woken && q != [];
      return Stretch(Core(capacity, head, q, stopped), Yields(element), notEmpty, notFull, false);
    }

    method Peek(pos: nat, woken: bool) returns (r: Stretch<T>)
      modifies this
      ensures r == PeekStretch(old(State()), pos, woken) && State() == r.core
    {
      if !woken && pos < head {
        return Stretch(Core(capacity, head, q, stopped), Returns(INVALID_ARGUMENT), false, false, false);
      }
      var notFull := SlideHeadOnCenter(pos);
      var core := Core(capacity, head, q, stopped);
      if pos >= head + |q| {
        return Stretch(core, if stopped then Returns(STOPPED) else Blocks, false, notFull, false);
      }
      if pos < head {
        return Stretch(core, Undefined, false, notFull, false);
      }
      return Stretch(core, Yields(q[pos - head]), false, notFull, woken && q != []);
    }

    /** Drops elements until the head is capacity / 2 before pos or the queue is empty. */
    method SlideHeadOnCenter(pos: nat) returns (notFull: bool)
      modifies this
      ensures State() == Slide(old(State()), pos)
      ensures notFull <==> old(State()).Full() && pos > old(head) + capacity / 2
    {
      notFull := false;
      if capacity != 0 {
        notFull := |q| == capacity && pos > head + capacity / 2;
        ghost var s, k := State(), 0;
        while q != [] && pos > head + capacity / 2
          invariant 0 <= k <= |s.q| && head == s.head + k && q == s.q[k..] && stopped == s.stopped
          invariant k <= Dropped(s, pos)
          decreases |q|
        {
          head := head + 1;
          q := q[1..];
          k := k + 1;
        }
      }
    }

    /** Stops the queue and tells which condition variables are broadcast. */
    method Stop() returns (broadcast: set<Cv>)
      modifies this
      ensures State() == old(State()).(stopped := true)
      ensures broadcast == {NotEmpty, NotFull, NewElement}
    {
      stopped := true;
      return {NotEmpty, NotFull, NewElement};
    }
  }
}
