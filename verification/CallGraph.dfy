/** Programs as functions with calls, call traces, and the compact call graph. */
module Calls {
  type Fun = nat
  type Call = nat

  /** A call-graph node: the kernel, or a call instruction. */
  datatype Node = Kernel | At(call: Call)

  datatype Inst = CallInst(call: Call) | OtherInst

  /** `callees` maps a call to the function it calls; `relevant` are the calls of functions that
      have a body and are neither intrinsics, variadic nor wrappers. */
  datatype Program = Program(kernel: Fun, bodies: map<Fun, seq<Inst>>, callees: map<Call, Fun>, relevant: set<Call>) {

    function Body(f: Fun): seq<Inst> {
      if f in bodies then bodies[f] else []
    }

    function Callee(c: Call): Fun {
      if c in callees then callees[c] else kernel
    }

    /** The function a node stands for. */
    function FunOf(n: Node): Fun {
      match n
      case Kernel => kernel
      case At(c) => Callee(c)
    }

    function RelevantIn(body: seq<Inst>): seq<Call> {
      if body == [] then []
      else
        RelevantIn(body[..|body| - 1]) +
        match body[|body| - 1]
        case CallInst(c) => if c in relevant then [c] else []
        case OtherInst => []
    }

    /** The relevant calls in the function of a node, in program order. */
    function Inner(n: Node): seq<Call> {
      RelevantIn(Body(FunOf(n)))
    }

    /** A call trace: it starts at the kernel, and each call is made by the function called
        before it. */
    predicate Trace(t: seq<Node>) {
      t != [] && t[0].Kernel? && forall i: nat :: 0 < i < |t| ==> CalledAt(t, i)
    }

    predicate CalledAt(t: seq<Node>, i: nat)
      requires 0 < i < |t|
    {
      t[i].At? && t[i].call in Inner(t[i - 1])
    }

    lemma {:induction false} RelevantInExact(body: seq<Inst>, c: Call)
      ensures c in RelevantIn(body) <==> CallInst(c) in body && c in relevant
      decreases body
    {
      if body != [] {
        RelevantInExact(body[..|body| - 1], c);
        assert body == body[..|body| - 1] + [body[|body| - 1]];
      }
    }

    predicate IsRelevant(i: Inst) {
      i.CallInst? && i.call in relevant
    }

    /** `at` are the positions of the relevant calls in the body, in order, and `calls` the calls there. */
    ghost predicate ListedAt(body: seq<Inst>, calls: seq<Call>, at: seq<nat>) {
      |at| == |calls| &&
      (forall j: nat, k: nat :: j < k < |at| ==> at[j] < at[k]) &&
      (forall k: nat :: k < |at| ==> at[k] < |body| && IsRelevant(body[at[k]]) && body[at[k]].call == calls[k]) &&
      forall i: nat :: i < |body| && IsRelevant(body[i]) ==> i in at
    }

    /** The list holds the relevant calls of the body, each once, in program order. */
    ghost predicate InProgramOrder(body: seq<Inst>, calls: seq<Call>) {
      exists at :: ListedAt(body, calls, at)
    }

    lemma {:induction false} RelevantInOrder(body: seq<Inst>)
      ensures InProgramOrder(body, RelevantIn(body))
      decreases body
    {
      if body == [] {
        assert ListedAt(body, [], []);
      } else {
        RelevantInOrder(body[..|body| - 1]);
        RelevantInStep(body);
        InOrderStep(body, RelevantIn(body[..|body| - 1]));
      }
    }

    lemma {:induction false} RelevantInStep(body: seq<Inst>)
      requires body != []
      ensures var calls, i := RelevantIn(body[..|body| - 1]), body[|body| - 1];
              RelevantIn(body) == if IsRelevant(i) then calls + [i.call] else calls
    {
    }

    lemma {:induction false} InOrderStep(body: seq<Inst>, calls: seq<Call>)
      requires body != [] && InProgramOrder(body[..|body| - 1], calls)
      ensures var i := body[|body| - 1];
              InProgramOrder(body, if IsRelevant(i) then calls + [i.call] else calls)
    {
      var at :| ListedAt(body[..|body| - 1], calls, at);
      OneMoreListed(body, calls, at);
    }

    lemma OneMoreListed(body: seq<Inst>, calls: seq<Call>, at: seq<nat>)
      requires body != [] && ListedAt(body[..|body| - 1], calls, at)
      ensures var i := body[|body| - 1];
              InProgramOrder(body, if IsRelevant(i) then calls + [i.call] else calls)
    {
      var n := |body| - 1;
      if IsRelevant(body[n]) {
        assert ListedAt(body, calls + [body[n].call], at + [n]);
      } else {
        assert ListedAt(body, calls, at);
      }
    }

    lemma TraceExtends(t: seq<Node>, c: Call)
      requires Trace(t) && c in Inner(t[|t| - 1])
      ensures Trace(t + [At(c)])
    {
      var u := t + [At(c)];
      forall i: nat | 0 < i < |u| ensures CalledAt(u, i) {
        if i < |t| { assert CalledAt(t, i); }
      }
    }

    ghost predicate Reachable(n: Node) {
      exists t :: Trace(t) && t[|t| - 1] == n
    }
  }

  type Table = map<Node, seq<Call>>

  ghost predicate Recorded(graph: Table, calls: seq<Call>) {
    forall c | c in calls :: At(c) in graph
  }

  /** The table only gained nodes, and the new ones have all their calls recorded too. */
  ghost predicate Grown(p: Program, before: Table, after: Table) {
    (forall m | m in before :: m in after && after[m] == before[m]) &&
    forall m {:trigger Recorded(after, p.Inner(m))} | m in after && m !in before :: Recorded(after, p.Inner(m))
  }

  lemma GrownTwice(p: Program, before: Table, mid: Table, after: Table)
    requires Grown(p, before, mid) && Grown(p, mid, after)
    ensures Grown(p, before, after)
  {
    forall m | m in after && m !in before ensures Recorded(after, p.Inner(m)) {
      if m in mid { assert Recorded(mid, p.Inner(m)); } else { assert Recorded(after, p.Inner(m)); }
    }
  }

  lemma GrownByNode(p: Program, before: Table, mid: Table, after: Table, n: Node)
    requires n !in before && mid == before[n := p.Inner(n)] && Grown(p, mid, after) && Recorded(after, p.Inner(n))
    ensures Grown(p, before, after)
  {
    forall m | m in after && m !in before ensures Recorded(after, p.Inner(m)) {
      if m != n { assert Recorded(after, p.Inner(m)); }
    }
  }

  lemma RecordedMore(mid: Table, after: Table, calls: seq<Call>, i: nat)
    requires i < |calls| && Recorded(mid, calls[..i]) && At(calls[i]) in after
    requires forall m | m in mid :: m in after
    ensures Recorded(after, calls[..i + 1])
  {
    assert calls[..i + 1] == calls[..i] + [calls[i]];
  }

  class CallGraphBuilder {
    const p: Program
    var graph: map<Node, seq<Call>>
    var trace: seq<Node>

    constructor (p: Program)
      ensures this.p == p && graph == map[] && trace == []
    {
      this.p := p;
      graph := map[];
      trace := [];
    }

    /** All nodes there could be. */
    ghost function Universe(): set<Node> {
      {Kernel} + set c | c in p.relevant :: At(c)
    }

    ghost predicate Valid()
      reads this
    {
      forall n {:trigger graph[n]} {:trigger p.Reachable(n)} | n in graph ::
        graph[n] == p.Inner(n) && p.Reachable(n)
    }

    static ghost predicate Callable(p: Program, t: seq<Node>, c: Call) {
      c in p.relevant && p.Trace(t + [At(c)])
    }

    static lemma InnerCallable(p: Program, n: Node, t: seq<Node>)
      requires p.Trace(t) && t[|t| - 1] == n
      ensures forall c | c in p.Inner(n) :: Callable(p, t, c)
    {
      forall c | c in p.Inner(n) ensures Callable(p, t, c) {
        p.RelevantInExact(p.Body(p.FunOf(n)), c);
        p.TraceExtends(t, c);
      }
    }

    method RelevantCalls(f: Fun) returns (calls: seq<Call>)
      ensures calls == p.RelevantIn(p.Body(f)) && p.InProgramOrder(p.Body(f), calls)
    {
      calls := [];
      var body := p.Body(f);
      for i := 0 to |body|
        invariant calls == p.RelevantIn(body[..i])
      {
        assert body[..i + 1][..i] == body[..i];
        match body[i] {
          case CallInst(c) =>
            if c in p.relevant {
              calls := calls + [c];
            }
          case OtherInst =>
        }
      }
      assert body[..|body|] == body;
      p.RelevantInOrder(body);
    }

    /** Record the calls under a node, depth first; a node is recorded at most once. */
    method ComputeCallgraphRec(n: Node)
      requires Valid() && n in Universe() && p.Trace(trace + [n])
      modifies this
      ensures Valid() && trace == old(trace) && n in graph && Grown(p, old(graph), graph)
      decreases Universe() - graph.Keys, 1
    {
      if n in graph {
        return;
      }
      ghost var before, trace0 := graph, trace;
      trace := trace + [n];
      var calls := RelevantCalls(p.FunOf(n));
      assert p.Reachable(n) by { assert trace[|trace| - 1] == n; }
      // the node is not in the graph, so recording it cannot fail
      graph := graph[n := calls];
      assert n in Universe() - before.Keys && n !in Universe() - graph.Keys;
      assert graph.Keys == before.Keys + {n};
      ghost var mid := graph;
      RecordCalls(n, calls);
      trace := trace[..|trace| - 1];
      assert trace == trace0;
      GrownByNode(p, before, mid, graph, n);
    }

    method RecordCalls(n: Node, calls: seq<Call>)
      requires Valid() && n in graph && calls == p.Inner(n) && p.Trace(trace) && trace[|trace| - 1] == n
      modifies this
      ensures Valid() && trace == old(trace) && Grown(p, old(graph), graph)
      ensures Recorded(graph, calls)
      decreases Universe() - graph.Keys, 3
    {
      ghost var before, trace0 := graph, trace;
      InnerCallable(p, n, trace);
      for i := 0 to |calls|
        invariant Valid() && trace == trace0 && Grown(p, before, graph)
        invariant Recorded(graph, calls[..i])
      {
        RecordCall(before, calls, i);
      }
      assert calls[..|calls|] == calls;
    }

    method RecordCall(ghost before: Table, calls: seq<Call>, i: nat)
      requires Valid() && i < |calls| && Callable(p, trace, calls[i])
      requires Grown(p, before, graph) && Recorded(graph, calls[..i])
      modifies this
      ensures Valid() && trace == old(trace) && Grown(p, before, graph) && Recorded(graph, calls[..i + 1])
      ensures forall m | m in old(graph) :: m in graph
      decreases Universe() - graph.Keys, 2
    {
      ghost var mid := graph;
      ComputeCallgraphRec(At(calls[i]));
      GrownTwice(p, before, mid, graph);
      RecordedMore(mid, graph, calls, i);
    }

    /** The compact call graph holds exactly the reachable nodes, each with the relevant calls of
        its function in program order. */
    method ComputeCallgraph()
      requires graph == map[] && trace == []
      modifies this
      ensures forall n :: n in graph <==> p.Reachable(n)
      ensures forall n | n in graph :: graph[n] == p.Inner(n) && p.InProgramOrder(p.Body(p.FunOf(n)), graph[n])
    {
      assert trace + [Kernel] == [Kernel];
      ComputeCallgraphRec(Kernel);
      forall n | n in graph ensures p.InProgramOrder(p.Body(p.FunOf(n)), graph[n]) {
        p.RelevantInOrder(p.Body(p.FunOf(n)));
      }
      forall n | p.Reachable(n) ensures n in graph {
        forall m, c | m in graph && c in p.Inner(m) ensures At(c) in graph {
          assert Recorded(graph, p.Inner(m));
        }
        var t :| p.Trace(t) && t[|t| - 1] == n;
        TracesStayInside(p, graph.Keys, t, |t| - 1);
      }
    }
  }

  /** A set of nodes that holds the kernel and is closed under calls holds the end of every
      trace. */
  lemma {:induction false} TracesStayInside(p: Program, nodes: set<Node>, t: seq<Node>, k: nat)
    requires Kernel in nodes && forall n, c | n in nodes && c in p.Inner(n) :: At(c) in nodes
    requires p.Trace(t) && k < |t|
    ensures t[k] in nodes
    decreases k
  {
    if k > 0 {
      TracesStayInside(p, nodes, t, k - 1);
      assert p.CalledAt(t, k);
    }
  }
}
