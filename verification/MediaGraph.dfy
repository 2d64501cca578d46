/** Graphs of media handlers: how streams are routed through them, and in what state initialization leaves them. */
module MediaGraphs {

  // ---------------------------------------------------------------- routing

  /** A handler's number of input streams, and for each output index the handler and input it feeds. */
  datatype Node<H> = Node(numInputs: nat, outputs: map<int, (H, nat)>)

  ghost predicate Fresh<H>(g: map<H, Node<H>>) {
    forall h <- g :: g[h] == Node(0, map[])
  }

  /** Edges end at inputs that exist. */
  ghost predicate InRange<H>(g: map<H, Node<H>>) {
    forall h, i | h in g && i in g[h].outputs ::
      g[h].outputs[i].0 in g && g[h].outputs[i].1 < g[g[h].outputs[i].0].numInputs
  }

  /** No two outputs feed the same input. */
  ghost predicate OneSource<H>(g: map<H, Node<H>>) {
    forall h, i, h', i' | h in g && h' in g && i in g[h].outputs && i' in g[h'].outputs ::
      g[h].outputs[i] == g[h'].outputs[i'] ==> h == h' && i == i'
  }

  /** Every input is fed. */
  ghost predicate AllFed<H>(g: map<H, Node<H>>) {
    forall t, j: nat | t in g && j < g[t].numInputs :: Fed(g, t, j)
  }

  ghost predicate Fed<H>(g: map<H, Node<H>>, t: H, j: nat) {
    exists h, i :: h in g && i in g[h].outputs && g[h].outputs[i] == (t, j)
  }

  ghost predicate Routed<H>(g: map<H, Node<H>>) {
    InRange(g) && OneSource(g) && AllFed(g)
  }

  /** SetHandler on a free output index: t gets another input, and h feeds it. */
  function Connect<H>(g: map<H, Node<H>>, h: H, i: int, t: H): (r: map<H, Node<H>>)
    requires h in g && t in g
    ensures r.Keys == g.Keys
  {
    var j := g[t].numInputs;
    var more := g[t := g[t].(numInputs := j + 1)];
    more[h := more[h].(outputs := more[h].outputs[i := (t, j)])]
  }

  ghost predicate Connected<H>(g: map<H, Node<H>>, h: H, i: int, t: H, r: map<H, Node<H>>)
    requires h in g && t in g
  {
    && r.Keys == g.Keys
    && (forall a <- g :: r[a].outputs == if a == h then g[h].outputs[i := (t, g[t].numInputs)] else g[a].outputs)
    && (forall a <- g :: r[a].numInputs == g[a].numInputs + if a == t then 1 else 0)
  }

  lemma ConnectInRange<H>(g: map<H, Node<H>>, h: H, i: int, t: H, r: map<H, Node<H>>)
    requires InRange(g) && h in g && t in g && Connected(g, h, i, t, r)
    ensures InRange(r)
  {
    forall a, k | a in r && k in r[a].outputs
      ensures r[a].outputs[k].0 in r && r[a].outputs[k].1 < r[r[a].outputs[k].0].numInputs
    {
      assert (a, k) == (h, i) || r[a].outputs[k] == g[a].outputs[k];
    }
  }

  lemma ConnectOneSource<H>(g: map<H, Node<H>>, h: H, i: int, t: H, r: map<H, Node<H>>)
    requires InRange(g) && OneSource(g) && h in g && t in g && i !in g[h].outputs && Connected(g, h, i, t, r)
    ensures OneSource(r)
  {
    forall a, k, a', k' | a in r && a' in r && k in r[a].outputs && k' in r[a'].outputs
                          && r[a].outputs[k] == r[a'].outputs[k']
      ensures a == a' && k == k'
    {
      assert (a, k) == (h, i) || (k in g[a].outputs && r[a].outputs[k] == g[a].outputs[k]);
      assert (a', k') == (h, i) || (k' in g[a'].outputs && r[a'].outputs[k'] == g[a'].outputs[k']);
    }
  }

  lemma ConnectAllFed<H>(g: map<H, Node<H>>, h: H, i: int, t: H, r: map<H, Node<H>>)
    requires AllFed(g) && h in g && t in g && i !in g[h].outputs && Connected(g, h, i, t, r)
    ensures AllFed(r)
  {
    forall b, j: nat | b in r && j < r[b].numInputs
      ensures Fed(r, b, j)
    {
      if b == t && j == g[t].numInputs {
        assert r[h].outputs[i] == (t, j);
      } else {
        assert Fed(g, b, j);
        var a, k :| a in g && k in g[a].outputs && g[a].outputs[k] == (b, j);
        assert r[a].outputs[k] == (b, j);
      }
    }
  }

  lemma ConnectRouted<H>(g: map<H, Node<H>>, h: H, i: int, t: H)
    requires Routed(g) && h in g && t in g && i !in g[h].outputs
    ensures Routed(Connect(g, h, i, t))
  {
    hide InRange, OneSource, AllFed;
    var r := Connect(g, h, i, t);
    assert Connected(g, h, i, t, r);
    hide Connected, Connect;
    ConnectInRange(g, h, i, t, r);
    ConnectOneSource(g, h, i, t, r);
    ConnectAllFed(g, h, i, t, r);
  }

  /** A call h.SetHandler(i, t), where `valid` is what ValidateOutputStreamIndex said. */
  datatype Call<H> = Call(h: H, i: int, t: H, valid: bool)

  function Apply<H>(g: map<H, Node<H>>, c: Call<H>): (r: map<H, Node<H>>)
    requires c.h in g && c.t in g
    ensures r.Keys == g.Keys
  {
    if c.valid && c.i !in g[c.h].outputs then Connect(g, c.h, c.i, c.t) else g
  }

  function ApplyAll<H>(g: map<H, Node<H>>, calls: seq<Call<H>>): map<H, Node<H>>
    requires forall c <- calls :: c.h in g && c.t in g
    decreases calls
  {
    if calls == [] then g else ApplyAll(Apply(g, calls[0]), calls[1..])
  }

  /** Whatever SetHandler calls are made, no two outputs feed one input, and every handler's inputs, numbered
      from 0, are all fed. */
  lemma {:induction false} EveryGraphRouted<H>(g: map<H, Node<H>>, calls: seq<Call<H>>)
    requires (forall c <- calls :: c.h in g && c.t in g) && (Fresh(g) || Routed(g))
    ensures Routed(ApplyAll(g, calls))
    decreases calls
  {
    if Fresh(g) {
      FreshRouted(g);
    }
    if calls != [] {
      var c := calls[0];
      if c.valid && c.i !in g[c.h].outputs {
        ConnectRouted(g, c.h, c.i, c.t);
      }
      hide Routed, Fresh, Apply;
      EveryGraphRouted(Apply(g, c), calls[1..]);
    }
  }

  lemma FreshRouted<H>(g: map<H, Node<H>>)
    requires Fresh(g)
    ensures Routed(g)
  {
  }

  // ---------------------------------------------------------------- following a stream

  /** The graph has no cycles, as `rank` shows: it falls along every edge. */
  ghost predicate Ranked<H>(g: map<H, Node<H>>, rank: map<H, nat>) {
    && (forall h <- g :: h in rank)
    && (forall h, i | h in g && i in g[h].outputs ::
          g[h].outputs[i].0 in g && rank[g[h].outputs[i].0] < rank[h])
  }

  /** h feeds none of `part`. */
  ghost predicate Leaves<H>(g: map<H, Node<H>>, part: set<H>, h: H)
    requires h in g
  {
    forall i <- g[h].outputs :: g[h].outputs[i].0 !in part
  }

  /** No cycles: among any handlers there is one that feeds none of them. */
  ghost predicate Acyclic<H>(g: map<H, Node<H>>) {
    forall part: set<H> | part <= g.Keys && part != {} :: exists h :: h in part && Leaves(g, part, h)
  }

  /** Every acyclic graph has a rank: a handler is numbered after all it feeds. */
  lemma RankOf<H>(g: map<H, Node<H>>) returns (rank: map<H, nat>)
    requires Acyclic(g) && InRange(g)
    ensures Ranked(g, rank)
  {
    rank := NumberRest(g, map[]);
  }

  /** The handlers numbered so far feed only handlers numbered lower. */
  ghost predicate Numbered<H>(g: map<H, Node<H>>, rank: map<H, nat>) {
    && rank.Keys <= g.Keys
    && (forall h <- rank :: rank[h] < |rank|)
    && (forall h, i | h in rank && i in g[h].outputs ::
          g[h].outputs[i].0 in rank && rank[g[h].outputs[i].0] < rank[h])
  }

  lemma {:induction false} NumberRest<H>(g: map<H, Node<H>>, rank: map<H, nat>) returns (all: map<H, nat>)
    requires Acyclic(g) && InRange(g) && Numbered(g, rank)
    ensures Ranked(g, all)
    decreases g.Keys - rank.Keys
  {
    hide Ranked, InRange, Leaves;
    var rest := g.Keys - rank.Keys;
    if rest == {} {
      AllNumbered(g, rank);
      all := rank;
    } else {
      var h := FirstOf(g, rest);
      NumberNext(g, rank, rest, h);
      assert g.Keys - rank[h := |rank|].Keys == rest - {h};
      hide Acyclic, Numbered;
      all := NumberRest(g, rank[h := |rank|]);
    }
  }

  lemma FirstOf<H>(g: map<H, Node<H>>, part: set<H>) returns (h: H)
    requires Acyclic(g) && part <= g.Keys && part != {}
    ensures h in part && Leaves(g, part, h)
  {
    h :| h in part && Leaves(g, part, h);
  }

  lemma AllNumbered<H>(g: map<H, Node<H>>, rank: map<H, nat>)
    requires Numbered(g, rank) && g.Keys - rank.Keys == {}
    ensures Ranked(g, rank)
  {
    assert forall h <- g :: h in rank || h in g.Keys - rank.Keys;
  }

  lemma NumberNext<H>(g: map<H, Node<H>>, rank: map<H, nat>, rest: set<H>, h: H)
    requires InRange(g) && Numbered(g, rank) && rest == g.Keys - rank.Keys && h in rest && Leaves(g, rest, h)
    ensures Numbered(g, rank[h := |rank|])
  {
    var next := rank[h := |rank|];
    assert next.Keys == rank.Keys + {h};
    assert |next| == |next.Keys| == |rank| + 1;
    forall i | i in g[h].outputs
      ensures g[h].outputs[i].0 in rank
    {
      assert g[h].outputs[i].0 !in rest;
    }
  }

  /** Conversely, a graph with a rank is acyclic. */
  lemma RankedIsAcyclic<H>(g: map<H, Node<H>>, rank: map<H, nat>)
    requires Ranked(g, rank)
    ensures Acyclic(g)
  {
    forall part: set<H> | part <= g.Keys && part != {}
      ensures exists h :: h in part && Leaves(g, part, h)
    {
      var h :| h in part;
      var lowest := Descend(g, rank, part, h);
    }
  }

  lemma {:induction false} Descend<H>(g: map<H, Node<H>>, rank: map<H, nat>, part: set<H>, h: H) returns (lowest: H)
    requires Ranked(g, rank) && part <= g.Keys && h in part
    ensures lowest in part && Leaves(g, part, lowest)
    decreases rank[h]
  {
    if Leaves(g, part, h) {
      lowest := h;
    } else {
      var i :| i in g[h].outputs && g[h].outputs[i].0 in part;
      lowest := Descend(g, rank, part, g[h].outputs[i].0);
    }
  }

  /** FlushStream does not go on from (h, i): h has no such output, or flushes in a way of its own. */
  predicate Stops<H>(g: map<H, Node<H>>, own: set<H>, h: H, i: int)
    requires h in g
  {
    h in own || i !in g[h].outputs
  }

  /** Where flushing input i of h ends, handlers passing a flush on to the output of the same index. */
  ghost function End<H>(g: map<H, Node<H>>, rank: map<H, nat>, own: set<H>, h: H, i: int): (r: (H, int))
    requires Ranked(g, rank) && h in g
    ensures r.0 in g
    decreases rank[h]
  {
    if Stops(g, own, h, i) then (h, i)
    else
      var (t, j) := g[h].outputs[i];
      End(g, rank, own, t, j)
  }

  /** Flushing input i of h ends after at most n steps. */
  ghost predicate EndsWithin<H>(g: map<H, Node<H>>, own: set<H>, h: H, i: int, n: nat)
    requires h in g
    decreases n
  {
    || Stops(g, own, h, i)
    || (n > 0 && g[h].outputs[i].0 in g && EndsWithin(g, own, g[h].outputs[i].0, g[h].outputs[i].1, n - 1))
  }

  ghost function EndIn<H>(g: map<H, Node<H>>, own: set<H>, h: H, i: int, n: nat): (r: (H, int))
    requires h in g && EndsWithin(g, own, h, i, n)
    ensures r.0 in g
    decreases n
  {
    if Stops(g, own, h, i) then (h, i)
    else
      var (t, j) := g[h].outputs[i];
      EndIn(g, own, t, j, n - 1)
  }

  /** On an acyclic graph it always ends. */
  lemma {:induction false} AcyclicEnds<H>(g: map<H, Node<H>>, rank: map<H, nat>, own: set<H>, h: H, i: int)
    requires Ranked(g, rank) && h in g
    ensures EndsWithin(g, own, h, i, rank[h]) && EndIn(g, own, h, i, rank[h]) == End(g, rank, own, h, i)
    decreases rank[h]
  {
    if !Stops(g, own, h, i) {
      var (t, j) := g[h].outputs[i];
      AcyclicEnds(g, rank, own, t, j);
      EndsLater(g, own, t, j, rank[t], rank[h] - 1);
    }
  }

  lemma {:induction false} EndsLater<H>(g: map<H, Node<H>>, own: set<H>, h: H, i: int, n: nat, m: nat)
    requires h in g && EndsWithin(g, own, h, i, n) && n <= m
    ensures EndsWithin(g, own, h, i, m) && EndIn(g, own, h, i, m) == EndIn(g, own, h, i, n)
    decreases n
  {
    if !Stops(g, own, h, i) {
      EndsLater(g, own, g[h].outputs[i].0, g[h].outputs[i].1, n - 1, m - 1);
    }
  }

  ghost predicate OnPath<H>(g: map<H, Node<H>>, rank: map<H, nat>, own: set<H>, x: (H, int), h: H, i: int)
    requires Ranked(g, rank) && h in g
    decreases rank[h]
  {
    || x == (h, i)
    || (!Stops(g, own, h, i) && OnPath(g, rank, own, x, g[h].outputs[i].0, g[h].outputs[i].1))
  }

  lemma {:induction false} EndOnPath<H>(g: map<H, Node<H>>, rank: map<H, nat>, own: set<H>, h: H, i: int)
    requires Ranked(g, rank) && h in g
    ensures OnPath(g, rank, own, End(g, rank, own, h, i), h, i)
    decreases rank[h]
  {
    if !Stops(g, own, h, i) {
      EndOnPath(g, rank, own, g[h].outputs[i].0, g[h].outputs[i].1);
    }
  }

  lemma {:induction false} PathFalls<H>(g: map<H, Node<H>>, rank: map<H, nat>, own: set<H>, x: (H, int), h: H, i: int)
    requires Ranked(g, rank) && h in g && OnPath(g, rank, own, x, h, i)
    ensures x == (h, i) || (x.0 in g && rank[x.0] < rank[h])
    decreases rank[h]
  {
    if x != (h, i) {
      PathFalls(g, rank, own, x, g[h].outputs[i].0, g[h].outputs[i].1);
    }
  }

  /** What a path passes after its start it enters over its one edge. */
  lemma {:induction false} PathEnters<H>(
      g: map<H, Node<H>>, rank: map<H, nat>, own: set<H>, a: H, k: int, h: H, i: int)
    requires Ranked(g, rank) && OneSource(g) && h in g && a in g && k in g[a].outputs
    requires OnPath(g, rank, own, g[a].outputs[k], h, i) && g[a].outputs[k] != (h, i)
    ensures OnPath(g, rank, own, (a, k), h, i)
    decreases rank[h]
  {
    var (t, j) := g[h].outputs[i];
    if g[a].outputs[k] == (t, j) {
      assert a == h && k == i;
    } else {
      PathEnters(g, rank, own, a, k, t, j);
    }
  }

  lemma {:induction false} MeetingPaths<H>(
      g: map<H, Node<H>>, rank: map<H, nat>, own: set<H>, h: H, i: int, h': H, i': int)
    requires Ranked(g, rank) && OneSource(g) && h in g && h' in g
    requires End(g, rank, own, h, i) == End(g, rank, own, h', i')
    ensures OnPath(g, rank, own, (h, i), h', i') || OnPath(g, rank, own, (h', i'), h, i)
    decreases rank[h]
  {
    if Stops(g, own, h, i) {
      EndOnPath(g, rank, own, h', i');
    } else if Stops(g, own, h', i') {
      EndOnPath(g, rank, own, h, i);
    } else {
      var (t, j) := g[h].outputs[i];
      var (t', j') := g[h'].outputs[i'];
      MeetingPaths(g, rank, own, t, j, t', j');
      if (t, j) == (t', j') {
        assert h == h' && i == i';
      } else if OnPath(g, rank, own, (t, j), t', j') {
        PathEnters(g, rank, own, h, i, t', j');
      } else {
        PathEnters(g, rank, own, h', i', t, j);
      }
    }
  }

  /** Two streams of one handler never end at the same input of the same handler. */
  lemma StreamsStayApart<H>(g: map<H, Node<H>>, rank: map<H, nat>, own: set<H>, h: H, i: int, i': int)
    requires Ranked(g, rank) && Routed(g) && h in g && i != i'
    ensures End(g, rank, own, h, i) != End(g, rank, own, h, i')
  {
    if End(g, rank, own, h, i) == End(g, rank, own, h, i') {
      MeetingPaths(g, rank, own, h, i, h, i');
      if OnPath(g, rank, own, (h, i), h, i') {
        PathFalls(g, rank, own, (h, i), h, i');
      } else {
        PathFalls(g, rank, own, (h, i'), h, i);
      }
    }
  }

  // ---------------------------------------------------------------- initialization

  /** How far a handler is initialized: InitializeInternal has been called `calls` times, and `works` if it
      returns OK. */
  datatype Progress = Progress(initialized: bool, calls: nat, works: bool)

  /** Among the handlers not initialized there are no cycles, as `rank` shows. */
  ghost predicate Orderly<H>(g: map<H, Node<H>>, s: map<H, Progress>, rank: map<H, nat>) {
    && s.Keys == g.Keys
    && (forall h <- g :: !s[h].initialized ==> h in rank)
    && (forall h, i | h in g && i in g[h].outputs && !s[h].initialized ::
          && g[h].outputs[i].0 in g
          && (!s[g[h].outputs[i].0].initialized ==> rank[g[h].outputs[i].0] < rank[h]))
  }

  /** The handlers not initialized, and what they feed of one another. */
  ghost function Rest<H>(g: map<H, Node<H>>, s: map<H, Progress>): map<H, Node<H>>
    requires s.Keys == g.Keys
  {
    map h | h in g && !s[h].initialized :: RestOf(g, s, g[h])
  }

  ghost function RestOf<H>(g: map<H, Node<H>>, s: map<H, Progress>, n: Node<H>): Node<H> {
    n.(outputs := map i | i in n.outputs && n.outputs[i].0 in s && !s[n.outputs[i].0].initialized :: n.outputs[i])
  }

  /** Exactly the graphs without cycles among the handlers not initialized have such a rank. */
  lemma OrderlyOf<H>(g: map<H, Node<H>>, s: map<H, Progress>) returns (rank: map<H, nat>)
    requires s.Keys == g.Keys && InRange(g) && Acyclic(Rest(g, s))
    ensures Orderly(g, s, rank)
  {
    var rest := Rest(g, s);
    assert InRange(rest);
    rank := RankOf(rest);
    forall h, i | h in g && i in g[h].outputs && !s[h].initialized
      ensures g[h].outputs[i].0 in g
      ensures !s[g[h].outputs[i].0].initialized ==> rank[g[h].outputs[i].0] < rank[h]
    {
      if !s[g[h].outputs[i].0].initialized {
        assert i in rest[h].outputs && rest[h].outputs[i] == g[h].outputs[i];
      }
    }
  }

  lemma OrderlyIsAcyclic<H>(g: map<H, Node<H>>, s: map<H, Progress>, rank: map<H, nat>)
    requires Orderly(g, s, rank)
    ensures Acyclic(Rest(g, s))
  {
    assert Ranked(Rest(g, s), rank);
    RankedIsAcyclic(Rest(g, s), rank);
  }

  /** h leads to t through handlers that are not initialized. */
  ghost predicate Reaches<H>(g: map<H, Node<H>>, s: map<H, Progress>, rank: map<H, nat>, h: H, t: H)
    requires Orderly(g, s, rank) && h in g && !s[h].initialized
    decreases rank[h]
  {
    || h == t
    || exists i :: i in g[h].outputs && !s[g[h].outputs[i].0].initialized && Reaches(g, s, rank, g[h].outputs[i].0, t)
  }

  /** What Initialize on h has to initialize. */
  ghost function Pending<H>(g: map<H, Node<H>>, s: map<H, Progress>, rank: map<H, nat>, h: H): set<H>
    requires Orderly(g, s, rank) && h in g
  {
    set t | t in g && !s[h].initialized && Reaches(g, s, rank, h, t)
  }

  lemma {:induction false} ReachesFalls<H>(g: map<H, Node<H>>, s: map<H, Progress>, rank: map<H, nat>, h: H, t: H)
    requires Orderly(g, s, rank) && h in g && !s[h].initialized && Reaches(g, s, rank, h, t)
    ensures t in g && !s[t].initialized && (t == h || rank[t] < rank[h])
    decreases rank[h]
  {
    if h != t {
      var i :| i in g[h].outputs && !s[g[h].outputs[i].0].initialized && Reaches(g, s, rank, g[h].outputs[i].0, t);
      ReachesFalls(g, s, rank, g[h].outputs[i].0, t);
    }
  }

  /** What is initialized in s is initialized in t. */
  ghost predicate Further<H>(s: map<H, Progress>, t: map<H, Progress>) {
    t.Keys == s.Keys && forall h <- s :: s[h].initialized ==> t[h].initialized
  }

  lemma OrderlyFurther<H>(g: map<H, Node<H>>, s: map<H, Progress>, t: map<H, Progress>, rank: map<H, nat>)
    requires Orderly(g, s, rank) && Further(s, t)
    ensures Orderly(g, t, rank)
  {
  }

  lemma {:induction false} ReachesLess<H>(
      g: map<H, Node<H>>, s: map<H, Progress>, t: map<H, Progress>, rank: map<H, nat>, h: H, a: H)
    requires Orderly(g, s, rank) && Orderly(g, t, rank) && Further(s, t) && h in g && !t[h].initialized
    requires Reaches(g, t, rank, h, a)
    ensures !s[h].initialized && Reaches(g, s, rank, h, a)
    decreases rank[h]
  {
    if h != a {
      var i :| i in g[h].outputs && !t[g[h].outputs[i].0].initialized && Reaches(g, t, rank, g[h].outputs[i].0, a);
      ReachesLess(g, s, t, rank, g[h].outputs[i].0, a);
    }
  }

  lemma PendingLess<H>(g: map<H, Node<H>>, s: map<H, Progress>, t: map<H, Progress>, rank: map<H, nat>, h: H)
    requires Orderly(g, s, rank) && Orderly(g, t, rank) && Further(s, t) && h in g
    ensures Pending(g, t, rank, h) <= Pending(g, s, rank, h)
  {
    forall a | a in Pending(g, t, rank, h)
      ensures a in Pending(g, s, rank, h)
    {
      ReachesLess(g, s, t, rank, h, a);
    }
  }

  /** What is pending below a child is pending below its parent; but never the parent itself. */
  lemma PendingOfChild<H>(g: map<H, Node<H>>, s: map<H, Progress>, rank: map<H, nat>, h: H, i: int)
    requires Orderly(g, s, rank) && h in g && !s[h].initialized && i in g[h].outputs
    ensures Pending(g, s, rank, g[h].outputs[i].0) <= Pending(g, s, rank, h) - {h}
  {
    var c := g[h].outputs[i].0;
    forall t | t in Pending(g, s, rank, c)
      ensures t != h && t in Pending(g, s, rank, h)
    {
      ReachesFalls(g, s, rank, c, t);
    }
  }

  /** The children of what was initialized on the way from s to t are initialized in t. */
  ghost predicate Settled<H>(g: map<H, Node<H>>, s: map<H, Progress>, t: map<H, Progress>) {
    forall h, i | h in g && i in g[h].outputs && h in s && h in t && !s[h].initialized && t[h].initialized ::
      g[h].outputs[i].0 in t && t[g[h].outputs[i].0].initialized
  }

  /** From s to t, some handlers of `part` were initialized, each by one call that worked. */
  ghost predicate Advanced<H>(part: set<H>, s: map<H, Progress>, t: map<H, Progress>) {
    && t.Keys == s.Keys
    && forall h <- s ::
         || t[h] == s[h]
         || (h in part && !s[h].initialized && s[h].works && t[h] == Progress(true, s[h].calls + 1, true))
  }

  /** From s to t, some handlers of `part` were called once, one of which did not work. */
  ghost predicate Failed<H>(part: set<H>, s: map<H, Progress>, t: map<H, Progress>) {
    && t.Keys == s.Keys
    && (forall h <- s ::
          || t[h] == s[h]
          || (h in part && !s[h].initialized && t[h].calls == s[h].calls + 1 && t[h].works == s[h].works))
    && exists h :: h in part && h in s && !s[h].initialized && !s[h].works
  }

  lemma AdvancedTwice<H>(part: set<H>, s: map<H, Progress>, t: map<H, Progress>, u: map<H, Progress>, part': set<H>)
    requires Advanced(part, s, t) && Advanced(part', t, u) && part' <= part
    ensures Advanced(part, s, u)
  {
  }

  lemma AdvancedThenFailed<H>(
      part: set<H>, s: map<H, Progress>, t: map<H, Progress>, u: map<H, Progress>, part': set<H>)
    requires Advanced(part, s, t) && Failed(part', t, u) && part' <= part
    ensures Failed(part, s, u)
  {
    var h :| h in part' && h in t && !t[h].initialized && !t[h].works;
    assert h in s && s[h] == t[h];
  }

  lemma AdvancedFurther<H>(part: set<H>, s: map<H, Progress>, t: map<H, Progress>)
    requires Advanced(part, s, t)
    ensures Further(s, t)
  {
  }

  lemma SettledTwice<H>(g: map<H, Node<H>>, s: map<H, Progress>, t: map<H, Progress>, u: map<H, Progress>)
    requires Further(s, t) && Further(t, u) && Settled(g, s, t) && Settled(g, t, u)
    ensures Settled(g, s, u)
  {
  }

  /** A successful Initialize has called InitializeInternal once on each handler that was pending, has
      initialized it, and has done nothing to any other. */
  lemma InitializedExactly<H>(
      g: map<H, Node<H>>, rank: map<H, nat>, h: H, s: map<H, Progress>, t: map<H, Progress>)
    requires Orderly(g, s, rank) && h in g
    requires Advanced(Pending(g, s, rank, h), s, t) && t[h].initialized && Settled(g, s, t)
    ensures forall a <- g ::
              t[a] == if a in Pending(g, s, rank, h) then Progress(true, s[a].calls + 1, true) else s[a]
  {
    forall a | a in g
      ensures t[a] == if a in Pending(g, s, rank, h) then Progress(true, s[a].calls + 1, true) else s[a]
    {
      if a in Pending(g, s, rank, h) {
        ReachesFalls(g, s, rank, h, a);
        SettledReaches(g, rank, h, a, s, t);
      }
    }
  }

  lemma {:induction false} SettledReaches<H>(
      g: map<H, Node<H>>, rank: map<H, nat>, h: H, a: H, s: map<H, Progress>, t: map<H, Progress>)
    requires Orderly(g, s, rank) && h in g && !s[h].initialized && t.Keys == s.Keys
    requires Settled(g, s, t) && t[h].initialized && Reaches(g, s, rank, h, a)
    ensures a in t && t[a].initialized
    decreases rank[h]
  {
    if h != a {
      var i :| i in g[h].outputs && !s[g[h].outputs[i].0].initialized && Reaches(g, s, rank, g[h].outputs[i].0, a);
      SettledReaches(g, rank, g[h].outputs[i].0, a, s, t);
    }
  }

  /** Initialize succeeds only if every pending handler works; so either outcome excludes the other. */
  lemma SuccessMeansAllWork<H>(
      g: map<H, Node<H>>, rank: map<H, nat>, h: H, s: map<H, Progress>, t: map<H, Progress>)
    requires Orderly(g, s, rank) && h in g
    requires Advanced(Pending(g, s, rank, h), s, t) && t[h].initialized && Settled(g, s, t)
    ensures forall a <- Pending(g, s, rank, h) :: s[a].works
    ensures !Failed(Pending(g, s, rank, h), s, t)
  {
    forall a | a in Pending(g, s, rank, h)
      ensures s[a].works
    {
      ReachesFalls(g, s, rank, h, a);
      SettledReaches(g, rank, h, a, s, t);
    }
  }

  // ---------------------------------------------------------------- initializing a fresh graph

  /** h leads to t. */
  ghost predicate LeadsTo<H>(g: map<H, Node<H>>, rank: map<H, nat>, h: H, t: H)
    requires Ranked(g, rank) && h in g
    decreases rank[h]
  {
    h == t || exists i :: i in g[h].outputs && LeadsTo(g, rank, g[h].outputs[i].0, t)
  }

  lemma {:induction false} FreshReaches<H>(g: map<H, Node<H>>, s: map<H, Progress>, rank: map<H, nat>, h: H, t: H)
    requires Ranked(g, rank) && s.Keys == g.Keys && (forall a <- s :: !s[a].initialized) && h in g
    ensures Orderly(g, s, rank) && (Reaches(g, s, rank, h, t) <==> LeadsTo(g, rank, h, t))
    decreases rank[h]
  {
    forall i | i in g[h].outputs
      ensures Orderly(g, s, rank)
      ensures Reaches(g, s, rank, g[h].outputs[i].0, t) <==> LeadsTo(g, rank, g[h].outputs[i].0, t)
    {
      FreshReaches(g, s, rank, g[h].outputs[i].0, t);
    }
  }

  /** On an acyclic graph where nothing was called before, a successful Initialize has called InitializeInternal
      once on each handler it leads to and on no other. */
  lemma InitializedOnce<H>(
      g: map<H, Node<H>>, rank: map<H, nat>, h: H, s: map<H, Progress>, t: map<H, Progress>)
    requires Ranked(g, rank) && h in g && s.Keys == g.Keys
    requires forall a <- s :: !s[a].initialized && s[a].calls == 0
    requires Orderly(g, s, rank) && Advanced(Pending(g, s, rank, h), s, t) && t[h].initialized && Settled(g, s, t)
    ensures forall a <- g :: t[a] == if LeadsTo(g, rank, h, a) then Progress(true, 1, true) else s[a]
  {
    InitializedExactly(g, rank, h, s, t);
    forall a | a in g
      ensures t[a] == if LeadsTo(g, rank, h, a) then Progress(true, 1, true) else s[a]
    {
      FreshReaches(g, s, rank, h, a);
    }
  }
}
