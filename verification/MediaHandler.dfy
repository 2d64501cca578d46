/** MediaHandler: the nodes of the stream graph. */
module MediaHandlers {
  import opened Options
  import opened MediaGraphs

  datatype Status = OK | InvalidArgument | AlreadyExists | NotFound | Other

  class MediaHandler {
    var initialized: bool
    var numInputStreams: nat
    var nextOutputStreamIndex: int
    var outputHandlers: map<int, (MediaHandler, nat)>
    // How often InitializeInternal has been called.
    var internalCalls: nat
    // What the virtual functions do: ValidateOutputStreamIndex if it is overridden, InitializeInternal,
    // FlushStream if it is overridden, and Process on each stream.
    const accepts: Option<int -> bool>
    const internalStatus: Status
    const flushStatus: Option<Status>
    const processStatus: nat -> Status

    constructor (accepts: Option<int -> bool>, internalStatus: Status, flushStatus: Option<Status>,
                 processStatus: nat -> Status)
      ensures !initialized && numInputStreams == 0 && nextOutputStreamIndex == 0 && outputHandlers == map[]
      ensures internalCalls == 0
      ensures this.accepts == accepts && this.internalStatus == internalStatus && this.flushStatus == flushStatus
      ensures this.processStatus == processStatus
    {
      initialized, numInputStreams, nextOutputStreamIndex, outputHandlers := false, 0, 0, map[];
      internalCalls := 0;
      this.accepts, this.internalStatus, this.flushStatus := accepts, internalStatus, flushStatus;
      this.processStatus := processStatus;
    }

    predicate ValidateOutputStreamIndex(index: int)
      reads this
    {
      match accepts
      case Some(f) => f(index)
      case None => 0 <= index < numInputStreams
    }

    /** Connects output `index` to the next input of `handler`. */
    method SetHandler(index: int, handler: MediaHandler, ghost g: set<MediaHandler>) returns (status: Status)
      requires this in g && handler in g
      modifies this`outputHandlers, this`nextOutputStreamIndex, handler`numInputStreams
      ensures status == if !old(ValidateOutputStreamIndex(index)) then InvalidArgument
                        else if index in old(outputHandlers) then AlreadyExists else OK
      ensures Routing(g) == Apply(old(Routing(g)), Call(this, index, handler, old(ValidateOutputStreamIndex(index))))
      ensures nextOutputStreamIndex == if status == OK then index + 1 else old(nextOutputStreamIndex)
      ensures status == OK ==>
                && outputHandlers == old(outputHandlers)[index := (handler, old(handler.numInputStreams))]
                && handler.numInputStreams == old(handler.numInputStreams) + 1
    {
      if !ValidateOutputStreamIndex(index) {
        return InvalidArgument;
      }
      if index in outputHandlers {
        return AlreadyExists;
      }
      var input := handler.numInputStreams;
      handler.numInputStreams := handler.numInputStreams + 1;
      outputHandlers := outputHandlers[index := (handler, input)];
      nextOutputStreamIndex := index + 1;
      return OK;
    }

    method AddHandler(handler: MediaHandler, ghost g: set<MediaHandler>) returns (status: Status)
      requires this in g && handler in g
      modifies this`outputHandlers, this`nextOutputStreamIndex, handler`numInputStreams
      ensures var i := old(nextOutputStreamIndex);
              && status == (if !old(ValidateOutputStreamIndex(i)) then InvalidArgument
                            else if i in old(outputHandlers) then AlreadyExists else OK)
              && Routing(g)
                 == Apply(old(Routing(g)), Call(this, i, handler, old(ValidateOutputStreamIndex(i))))
      ensures nextOutputStreamIndex == old(nextOutputStreamIndex) + if status == OK then 1 else 0
    {
      status := SetHandler(nextOutputStreamIndex, handler, g);
    }

    method InitializeInternal(ghost g: set<MediaHandler>) returns (status: Status)
      requires this in g
      modifies this`internalCalls
      ensures status == internalStatus
      ensures var s := old(States(g)); States(g) == s[this := s[this].(calls := s[this].calls + 1)]
    {
      internalCalls := internalCalls + 1;
      return internalStatus;
    }

    method SetInitialized(ghost g: set<MediaHandler>)
      requires this in g
      modifies this`initialized
      ensures initialized
      ensures var s := old(States(g)); States(g) == s[this := s[this].(initialized := true)]
    {
      initialized := true;
    }

    /** Initializes this handler and, through handlers not initialized, everything downstream. On OK, each of
        them has been initialized, by one call of InitializeInternal that returned OK; otherwise one of them
        does not work, and none has been called twice. */
    method Initialize(
        ghost g: set<MediaHandler>, ghost rank: map<MediaHandler, nat>, ghost r: map<MediaHandler, Node<MediaHandler>>)
      returns (status: Status)
      requires this in g && r == Routing(g) && Orderly(r, States(g), rank)
      modifies g`initialized, g`internalCalls
      ensures Settled(r, old(States(g)), States(g))
      ensures var part := Pending(r, old(States(g)), rank, this);
              if status == OK
              then Advanced(part, old(States(g)), States(g)) && initialized
              else Failed(part, old(States(g)), States(g))
      decreases if initialized then 0 else rank[this] + 1, 1
    {
      hide Orderly, Settled, Advanced, Failed, Pending, AllInitialized;
      ghost var s0 := States(g);
      ghost var part := Pending(r, s0, rank, this);
      if initialized {
        AdvancedNot<MediaHandler>(part, s0);
        SettledNot<MediaHandler>(r, s0, s0);
        return OK;
      }
      IsPending(r, s0, rank, this);
      status := InitializeInternal(g);
      ghost var s1 := States(g);
      CalledOnce(r, s0, s1, rank, this);
      if status != OK {
        FailedAtOnce(part, s0, s1, this);
        return;
      }
      ghost var below := Pending(r, s1, rank, this) - {this};
      status := InitializeOutputs(g, rank, r);
      ghost var s2 := States(g);
      if status != OK {
        FailedBelow(part, below, s0, s1, s2, this);
        SettledFrom(r, s0, s1, s2, this);
        return;
      }
      AdvancedSame(below, s1, s2, this);
      SetInitialized(g);
      Finished(r, part, below, s0, s1, s2, States(g), this);
      return OK;
    }

    /** The loop of Initialize over the output handlers, in the order of their indices. */
    method InitializeOutputs(
        ghost g: set<MediaHandler>, ghost rank: map<MediaHandler, nat>, ghost r: map<MediaHandler, Node<MediaHandler>>)
      returns (status: Status)
      requires this in g && !initialized && r == Routing(g) && Orderly(r, States(g), rank)
      modifies g`initialized, g`internalCalls
      ensures Settled(r, old(States(g)), States(g))
      ensures var part := Pending(r, old(States(g)), rank, this) - {this};
              if status == OK
              then && Advanced(part, old(States(g)), States(g))
                   && AllInitialized(r, this, outputHandlers.Keys, States(g))
              else Failed(part, old(States(g)), States(g))
      decreases if initialized then 0 else rank[this] + 1, 0
    {
      hide Orderly, Settled, Advanced, Failed, Pending, AllInitialized;
      ghost var s1 := States(g);
      ghost var part := Pending(r, s1, rank, this) - {this};
      AdvancedNot(part, s1);
      SettledNot(r, s1, s1);
      var todo := outputHandlers.Keys;
      NoneYet(r, this, outputHandlers.Keys - todo, s1);
      while todo != {}
        invariant Routing(g) == r && todo <= outputHandlers.Keys && !initialized
        invariant Orderly(r, States(g), rank) && Advanced(part, s1, States(g)) && Settled(r, s1, States(g))
        invariant AllInitialized(r, this, outputHandlers.Keys - todo, States(g))
      {
        NotEmpty(todo);
        ghost var least := Least(todo);
        var i :| i in todo && forall j <- todo :: i <= j;
        var child := outputHandlers[i].0;
        ghost var s2 := States(g);
        OrderlyChild(r, s2, rank, this, i);
        ghost var below := Pending(r, s2, rank, child);
        AdvancedFurther(part, s1, s2);
        PendingLess(r, s1, s2, rank, this);
        PendingOfChild(r, s2, rank, this, i);
        status := child.Initialize(g, rank, r);
        ghost var s3 := States(g);
        SettledThen(r, s1, s2, s3, status == OK, below);
        if status != OK {
          AdvancedThenFailed(part, s1, s2, s3, below);
          return;
        }
        AdvancedTwice(part, s1, s2, s3, below);
        AdvancedSame(part, s1, s3, this);
        AdvancedFurther(below, s2, s3);
        OrderlyFurther(r, s2, s3, rank);
        OneMoreInitialized(r, this, outputHandlers.Keys, todo, i, below, s2, s3);
        todo := todo - {i};
      }
      assert outputHandlers.Keys - todo == outputHandlers.Keys;
      return OK;
    }

    /** Flushes downstream: the status is that of the handler where the stream ends, if it ends. */
    method FlushStream(index: int, ghost g: set<MediaHandler>, ghost steps: nat) returns (status: Status)
      requires this in g && EndsWithin(Routing(g), Flushers(g), this, index, steps)
      ensures var last := EndIn(Routing(g), Flushers(g), this, index, steps).0;
              status == match last.flushStatus case Some(own) => own case None => NotFound
      ensures flushStatus.Some? ==> status == flushStatus.value
      ensures flushStatus.None? && index !in outputHandlers ==> status == NotFound
      decreases steps
    {
      if flushStatus.Some? {
        return flushStatus.value;
      }
      if index !in outputHandlers {
        return NotFound;
      }
      var (handler, input) := outputHandlers[index];
      status := handler.FlushStream(input, g, steps - 1);
    }

    /** Hands stream data at output `index` on to Process of the handler there, under its stream index there. */
    method Dispatch(index: int) returns (status: Status, r: Option<(MediaHandler, nat)>)
      ensures r.Some? <==> index in outputHandlers
      ensures match r
              case Some((handler, input)) =>
                (handler, input) == outputHandlers[index] && status == handler.processStatus(input)
              case None => status == NotFound
    {
      if index !in outputHandlers {
        return NotFound, None;
      }
      var (handler, input) := outputHandlers[index];
      return handler.processStatus(input), Some((handler, input));
    }
  }

  ghost function Routing(g: set<MediaHandler>): map<MediaHandler, Node<MediaHandler>>
    reads g`numInputStreams, g`outputHandlers
  {
    map h | h in g :: Node(h.numInputStreams, h.outputHandlers)
  }

  ghost function States(g: set<MediaHandler>): map<MediaHandler, Progress>
    reads g`initialized, g`internalCalls
  {
    map h | h in g :: Progress(h.initialized, h.internalCalls, h.internalStatus == OK)
  }

  ghost function Flushers(g: set<MediaHandler>): set<MediaHandler> {
    set h | h in g && h.flushStatus.Some?
  }

  lemma NotEmpty(s: set<int>)
    ensures s == {} || exists x :: x in s
  {
    if !exists x :: x in s {
      assert s == {};
    }
  }

  lemma {:induction false} Least(s: set<int>) returns (least: int)
    requires exists x :: x in s
    ensures least in s && forall j <- s :: least <= j
  {
    var x: int :| x in s;
    var others := s - {x};
    assert forall j <- s :: j == x || j in others;
    least := x;
    if exists y :: y in others {
      var k := Least(others);
      least := if x <= k then x else k;
    }
  }

  /** The handlers at the given outputs of h are initialized. */
  ghost predicate AllInitialized<H>(r: map<H, Node<H>>, h: H, indices: set<int>, s: map<H, Progress>)
    requires h in r && indices <= r[h].outputs.Keys
  {
    forall i <- indices :: r[h].outputs[i].0 in s && s[r[h].outputs[i].0].initialized
  }

  lemma NoneYet<H>(r: map<H, Node<H>>, h: H, indices: set<int>, s: map<H, Progress>)
    requires h in r && indices == {}
    ensures AllInitialized(r, h, indices, s)
  {
  }

  lemma OneMoreInitialized<H>(
      r: map<H, Node<H>>, h: H, all: set<int>, todo: set<int>, i: int, part: set<H>,
      s: map<H, Progress>, t: map<H, Progress>)
    requires h in r && todo <= all == r[h].outputs.Keys && i in todo
    requires AllInitialized(r, h, all - todo, s) && Advanced(part, s, t)
    requires r[h].outputs[i].0 in t && t[r[h].outputs[i].0].initialized
    ensures AllInitialized(r, h, all - (todo - {i}), t)
  {
  }

  lemma IsPending<H>(r: map<H, Node<H>>, s: map<H, Progress>, rank: map<H, nat>, h: H)
    requires Orderly(r, s, rank) && h in r && !s[h].initialized
    ensures h in Pending(r, s, rank, h) && h in rank
  {
  }

  lemma OrderlyChild<H>(r: map<H, Node<H>>, s: map<H, Progress>, rank: map<H, nat>, h: H, i: int)
    requires Orderly(r, s, rank) && h in r && i in r[h].outputs && !s[h].initialized
    ensures var c := r[h].outputs[i].0;
            h in rank && c in r && (!s[c].initialized ==> c in rank && rank[c] < rank[h])
  {
  }

  /** Nothing is initialized on the way from s to t. */
  lemma SettledNot<H>(r: map<H, Node<H>>, s: map<H, Progress>, t: map<H, Progress>)
    requires forall h :: h in s && h in t && t[h].initialized ==> s[h].initialized
    ensures Settled(r, s, t)
  {
  }

  lemma CalledOnce<H>(
      r: map<H, Node<H>>, s: map<H, Progress>, t: map<H, Progress>, rank: map<H, nat>, h: H)
    requires Orderly(r, s, rank) && h in r && h in s && t == s[h := s[h].(calls := s[h].calls + 1)]
    ensures Settled(r, s, t) && Orderly(r, t, rank) && Pending(r, t, rank, h) <= Pending(r, s, rank, h)
  {
    hide Pending;
    assert t.Keys == s.Keys && forall a <- s :: t[a].initialized == s[a].initialized;
    PendingLess(r, s, t, rank, h);
  }

  lemma SettledFrom<H>(r: map<H, Node<H>>, s: map<H, Progress>, s1: map<H, Progress>, t: map<H, Progress>, h: H)
    requires h in s && s1 == s[h := s[h].(calls := s[h].calls + 1)] && Settled(r, s1, t)
    ensures Settled(r, s, t)
  {
    assert s1.Keys == s.Keys && forall a <- s :: s1[a].initialized == s[a].initialized;
  }

  lemma SettledThen<H>(
      r: map<H, Node<H>>, s: map<H, Progress>, t: map<H, Progress>, u: map<H, Progress>, ok: bool, part: set<H>)
    requires Further(s, t) && Settled(r, s, t) && Settled(r, t, u)
    requires if ok then Advanced(part, t, u) else Failed(part, t, u)
    ensures Settled(r, s, u)
  {
    assert Further(t, u);
    SettledTwice(r, s, t, u);
  }

  lemma AdvancedNot<H>(part: set<H>, s: map<H, Progress>)
    ensures Advanced(part, s, s)
  {
  }

  lemma AdvancedSame<H>(part: set<H>, s: map<H, Progress>, t: map<H, Progress>, h: H)
    requires Advanced(part, s, t) && h in s && h !in part
    ensures h in t && t[h] == s[h]
  {
  }

  /** Marking h initialized once everything below it is. */
  lemma Finished<H>(
      r: map<H, Node<H>>, part: set<H>, below: set<H>, s0: map<H, Progress>, s1: map<H, Progress>,
      s2: map<H, Progress>, t: map<H, Progress>, h: H)
    requires h in r && h in part && below <= part && h !in below && h in s0 && !s0[h].initialized && s0[h].works
    requires s1 == s0[h := s0[h].(calls := s0[h].calls + 1)] && Advanced(below, s1, s2) && Settled(r, s1, s2)
    requires AllInitialized(r, h, r[h].outputs.Keys, s2)
    requires h in s2 && s2[h] == s1[h] && t == s2[h := s2[h].(initialized := true)]
    ensures Advanced(part, s0, t) && Settled(r, s0, t)
  {
    assert t.Keys == s0.Keys == s2.Keys;
  }

  lemma FailedAtOnce<H>(part: set<H>, s: map<H, Progress>, t: map<H, Progress>, h: H)
    requires h in part && h in s && !s[h].initialized && !s[h].works
    requires t == s[h := s[h].(calls := s[h].calls + 1)]
    ensures Failed(part, s, t)
  {
    assert t.Keys == s.Keys;
  }

  lemma FailedBelow<H>(
      part: set<H>, below: set<H>, s: map<H, Progress>, s1: map<H, Progress>, t: map<H, Progress>, h: H)
    requires h in part && below <= part && h !in below && h in s && !s[h].initialized
    requires s1 == s[h := s[h].(calls := s[h].calls + 1)] && Failed(below, s1, t)
    ensures Failed(part, s, t)
  {
    var a :| a in below && a in s1 && !s1[a].initialized && !s1[a].works;
    assert a in s && s[a] == s1[a];
    assert s1.Keys == s.Keys;
  }
}
