/** The verdict on whether an aggregate may be taken apart: a yes or no, and what it is worth. */
module Verdicts {

  datatype Verdict = Verdict(ok: bool, area: real, latency: real) {
    function Profit(): real { area + latency }

    function AndAdd(op: Verdict): Verdict {
      Verdict(op.ok && ok, area + op.area, latency + op.latency)
    }

    /** The yes stays only if it pays; the amounts are forgotten. */
    function Cast(): Verdict {
      Verdict(ok && Profit() >= 0.0, 0.0, 0.0)
    }
  }

  const NO := Verdict(false, 0.0, 0.0)

  // ----- whole histories of a verdict -----

  datatype Update = Add(v: Verdict) | CondAdd(v: Verdict) | CastNow

  function Updated(v: Verdict, op: Update): Verdict {
    match op
    case Add(w) => v.AndAdd(w)
    case CondAdd(w) => v.AndAdd(if w.ok then w else NO)
    case CastNow => v.Cast()
  }

  function Replay(v: Verdict, ops: seq<Update>): Verdict {
    if ops == [] then v else Updated(Replay(v, ops[..|ops| - 1]), ops[|ops| - 1])
  }

  /** What one step adds. */
  function Added(op: Update): (real, real) {
    match op
    case Add(w) => (w.area, w.latency)
    case CondAdd(w) => if w.ok then (w.area, w.latency) else (0.0, 0.0)
    case CastNow => (0.0, 0.0)
  }

  /** The step behind the last cast, or the first one. */
  function SinceCast(ops: seq<Update>): (n: nat)
    ensures n <= |ops|
  {
    if ops == [] then 0 else if ops[|ops| - 1].CastNow? then |ops| else SinceCast(ops[..|ops| - 1])
  }

  lemma {:induction false} SinceCastIs(ops: seq<Update>)
    ensures var n := SinceCast(ops);
            (n > 0 ==> ops[n - 1].CastNow?) && forall i: nat :: n <= i < |ops| ==> !ops[i].CastNow?
    decreases |ops|
  {
    if ops != [] && !ops[|ops| - 1].CastNow? { SinceCastIs(ops[..|ops| - 1]); }
  }

  /** What the steps from number `n` on add, summed. */
  function AreaFrom(ops: seq<Update>, n: nat): real {
    if |ops| <= n then 0.0 else AreaFrom(ops[..|ops| - 1], n) + Added(ops[|ops| - 1]).0
  }

  function LatencyFrom(ops: seq<Update>, n: nat): real {
    if |ops| <= n then 0.0 else LatencyFrom(ops[..|ops| - 1], n) + Added(ops[|ops| - 1]).1
  }

  /** The amounts gathered: what was there, unless it was forgotten, and all that was added since. */
  function GatheredArea(v: Verdict, ops: seq<Update>): real {
    (if SinceCast(ops) == 0 then v.area else 0.0) + AreaFrom(ops, SinceCast(ops))
  }

  function GatheredLatency(v: Verdict, ops: seq<Update>): real {
    (if SinceCast(ops) == 0 then v.latency else 0.0) + LatencyFrom(ops, SinceCast(ops))
  }

  lemma UpdatedAdds(v: Verdict, op: Update)
    ensures Updated(v, op).area == if op.CastNow? then 0.0 else v.area + Added(op).0
    ensures Updated(v, op).latency == if op.CastNow? then 0.0 else v.latency + Added(op).1
  {
  }

  lemma OneMoreGathered(v: Verdict, ops: seq<Update>)
    requires ops != []
    ensures var init, op := ops[..|ops| - 1], ops[|ops| - 1];
            GatheredArea(v, ops) == (if op.CastNow? then 0.0 else GatheredArea(v, init) + Added(op).0) &&
            GatheredLatency(v, ops) == (if op.CastNow? then 0.0 else GatheredLatency(v, init) + Added(op).1)
  {
    if ops[|ops| - 1].CastNow? { assert SinceCast(ops) == |ops|; } else { assert SinceCast(ops) < |ops|; }
  }

  /** A history ends with the sums of what its steps added since the last cast. */
  lemma {:induction false} ReplaySums(v: Verdict, ops: seq<Update>)
    ensures Replay(v, ops).area == GatheredArea(v, ops) && Replay(v, ops).latency == GatheredLatency(v, ops)
    decreases |ops|
  {
    if ops != [] {
      var init, op := ops[..|ops| - 1], ops[|ops| - 1];
      ReplaySums(v, init);
      UpdatedAdds(Replay(v, init), op);
      OneMoreGathered(v, ops);
    }
  }

  /** Step `i` does not turn a yes into a no: the verdict added is a yes, or what was gathered
      since the last cast pays. */
  predicate Passes(v: Verdict, ops: seq<Update>, i: nat)
    requires i < |ops|
  {
    match ops[i]
    case CastNow => GatheredArea(v, ops[..i]) + GatheredLatency(v, ops[..i]) >= 0.0
    case Add(w) => w.ok
    case CondAdd(w) => w.ok
  }

  /** A yes survives a history exactly when it was a yes and every step passes; no step turns a no
      into a yes. */
  lemma {:induction false} YesSurvivesIff(v: Verdict, ops: seq<Update>)
    ensures Replay(v, ops).ok <==> v.ok && forall i: nat :: i < |ops| ==> Passes(v, ops, i)
    decreases |ops|
  {
    if ops != [] {
      var init := ops[..|ops| - 1];
      YesSurvivesIff(v, init);
      ReplaySums(v, init);
      forall i: nat | i < |init| ensures Passes(v, init, i) <==> Passes(v, ops, i) {
        assert init[..i] == ops[..i];
      }
      assert Replay(v, ops).ok <==> Replay(v, init).ok && Passes(v, ops, |ops| - 1);
    }
  }

  class Expandability {
    var expandability: bool
    var areaProfit: real
    var latencyProfit: real

    function V(): Verdict
      reads this
    {
      Verdict(expandability, areaProfit, latencyProfit)
    }

    constructor (v: Verdict)
      ensures V() == v
    {
      expandability, areaProfit, latencyProfit := v.ok, v.area, v.latency;
    }

    method Cast() returns (gotCasted: bool)
      modifies this
      ensures V() == old(V()).Cast()
      ensures expandability <==> old(expandability) && old(areaProfit) + old(latencyProfit) >= 0.0
      ensures areaProfit == latencyProfit == 0.0
      ensures gotCasted <==> old(expandability) && !expandability
    {
      var profitable := areaProfit + latencyProfit >= 0.0;
      gotCasted := expandability && !profitable;
      expandability := expandability && profitable;
      areaProfit, latencyProfit := 0.0, 0.0;
    }

    /** Unlike `Cast`, this refuses a verdict that is worth exactly nothing. */
    method GetCasted() returns (v: Verdict)
      ensures v.area == v.latency == 0.0
      ensures v.ok <==> V().Cast().ok && areaProfit + latencyProfit != 0.0
    {
      v := Verdict(expandability && areaProfit + latencyProfit > 0.0, 0.0, 0.0);
    }

    method AndAdd(op: Verdict)
      modifies this
      ensures V() == old(V()).AndAdd(op)
    {
      expandability := op.ok && expandability;
      areaProfit := areaProfit + op.area;
      latencyProfit := latencyProfit + op.latency;
    }

    method AndCondAdd(op: Verdict)
      modifies this
      ensures V() == old(V()).AndAdd(if op.ok then op else NO)
    {
      expandability := op.ok && expandability;
      if op.ok {
        areaProfit := areaProfit + op.area;
        latencyProfit := latencyProfit + op.latency;
      }
    }
  }
}

/** The escape analysis: may every access to an object be rewritten?

    It follows the uses of a pointer through address computations and into called functions.
 */
module EscapeAnalysis {
  import opened Verdicts

  type UseId = nat
  type ValId = nat
  type FunId = nat

  /** A pointer value: an address computation over another pointer, or anything else. */
  datatype Val = GepVal(allConst: bool, numIdxs: nat, ptr: ValId) | PlainVal

  /** What the user of a pointer operand does with it; `isPtr` says that the operand is the
      pointer operand of the user.  A call is known by the parameter its operand is bound to. */
  datatype User =
    | GepUser(gep: ValId, isPtr: bool)
    | LoadUser(bits: nat, isPtr: bool)
    | StoreUser(isPtr: bool)
    | CallUser(relevant: bool, lifetime: bool, callee: FunId, param: ValId)
    | BitcastUser(cast: ValId)
    | OtherUser

  datatype Graph = Graph(
    vals: map<ValId, Val>,
    uses: map<ValId, seq<UseId>>,  // the uses of a value, in order
    value: map<UseId, ValId>,      // the value that is used
    user: map<UseId, User>)

  function UsesOf(g: Graph, v: ValId): seq<UseId> {
    if v in g.uses then g.uses[v] else []
  }

  /** The value through which the analysis goes on from a use. */
  function Through(u: User): (v: seq<ValId>)
    ensures |v| <= 1
  {
    match u
    case GepUser(gep, isPtr) => if isPtr then [gep] else []
    case CallUser(relevant, _, _, param) => if relevant then [param] else []
    case _ => []
  }

  /** Address computations come after the pointers they are built on. */
  predicate ChainsDown(g: Graph) {
    forall v {:trigger Down(g, v)} | v in g.vals :: Down(g, v)
  }

  predicate Down(g: Graph, v: ValId) {
    v in g.vals && (g.vals[v].GepVal? ==> g.vals[v].ptr < v && g.vals[v].ptr in g.vals)
  }

  /** Uses are listed with their user and value; address computations come after the pointers
      they are built on; the call graph has no cycle, so following uses goes down in `rank`. */
  ghost predicate WellFormed(g: Graph, rank: map<UseId, nat>) {
    (forall v | v in g.uses :: forall i: nat :: i < |g.uses[v]| ==>
      g.uses[v][i] in g.user && g.uses[v][i] in g.value) &&
    ChainsDown(g) &&
    (forall u | u in g.user :: u in rank && u in g.value && g.value[u] in g.vals &&
      (g.user[u].GepUser? ==> g.user[u].gep in g.vals) &&
      forall v | v in Through(g.user[u]) :: forall i: nat :: i < |UsesOf(g, v)| ==>
        UsesOf(g, v)[i] in rank && rank[UsesOf(g, v)[i]] < rank[u])
  }

  /** All address computations from `v` down to the base have constant indices. */
  predicate ConstChain(g: Graph, v: ValId)
    requires ChainsDown(g)
    requires v in g.vals
  {
    assert Down(g, v);
    g.vals[v].GepVal? ==> g.vals[v].allConst && ConstChain(g, g.vals[v].ptr)
  }

  method ChainHasAllConstantIndices(g: Graph, v: ValId) returns (allConst: bool)
    requires ChainsDown(g)
    requires v in g.vals
    ensures allConst <==> ConstChain(g, v)
  {
    var rec := v;
    while g.vals[rec].GepVal?
      invariant rec in g.vals
      invariant ConstChain(g, v) <==> ConstChain(g, rec)
      decreases rec
    {
      assert Down(g, rec);
      if !g.vals[rec].allConst {
        return false;
      }
      rec := g.vals[rec].ptr;
    }
    return true;
  }

  /** Worth of rewriting one address computation, one load, one store. */
  function GepProfit(v: Val): Verdict {
    if v.GepVal? && v.allConst then Verdict(true, 3.0 * 32.0 * (v.numIdxs as real), 0.0)
    else Verdict(true, -(128.0 * 3.0 * 32.0 * 32.0), 0.0)
  }

  function LoadProfit(bits: nat): real { 3.0 * (bits as real) }

  /** A store instruction has no value of its own, so its width counts as zero. */
  const STORE_PROFIT := 0.0

  function Versionable(profitable: map<FunId, bool>, f: FunId): bool {
    f in profitable ==> profitable[f]
  }

  /** The first `n` verdicts on the uses of `v`, accumulated onto `acc`. */
  ghost function Accumulate(g: Graph, profitable: map<FunId, bool>, rank: map<UseId, nat>, v: ValId, n: nat,
                            bound: nat, acc: Verdict): Verdict
    requires WellFormed(g, rank) && n <= |UsesOf(g, v)|
    requires forall i: nat :: i < |UsesOf(g, v)| ==> UsesOf(g, v)[i] in rank && rank[UsesOf(g, v)[i]] < bound
    decreases bound, 0, n
  {
    if n == 0 then acc
    else
      var u := UsesOf(g, v)[n - 1];
      Accumulate(g, profitable, rank, v, n - 1, bound, acc).AndAdd(PtrVerdict(g, profitable, rank, u))
  }

  /** The verdict on one use. */
  ghost function PtrVerdict(g: Graph, profitable: map<FunId, bool>, rank: map<UseId, nat>, u: UseId): Verdict
    requires WellFormed(g, rank) && u in g.user
    decreases rank[u], 2, 0
  {
    match g.user[u]
    case GepUser(gep, isPtr) =>
      if isPtr then
        assert gep in Through(g.user[u]);
        Accumulate(g, profitable, rank, gep, |UsesOf(g, gep)|, rank[u], GepProfit(g.vals[gep]))
      else NO
    case LoadUser(bits, isPtr) => Verdict(isPtr, LoadProfit(bits), 0.0)
    case StoreUser(isPtr) => Verdict(isPtr, STORE_PROFIT, 0.0)
    case CallUser(relevant, _, callee, param) =>
      if relevant then
        assert param in Through(g.user[u]);
        CallSum(g, profitable, rank, u).Cast()
      else NO
    case BitcastUser(cast) =>
      Verdict(forall i: nat :: i < |UsesOf(g, cast)| ==> IsLifetime(g, UsesOf(g, cast)[i]), 0.0, 0.0)
    case OtherUser => NO
  }

  predicate IsLifetime(g: Graph, u: UseId) {
    u in g.user && g.user[u].CallUser? && g.user[u].lifetime
  }

  /** What a relevant call adds up to before it is cast. */
  ghost function CallSum(g: Graph, profitable: map<FunId, bool>, rank: map<UseId, nat>, u: UseId): Verdict
    requires WellFormed(g, rank) && u in g.user && g.user[u].CallUser? && g.user[u].relevant
    decreases rank[u], 1, 0
  {
    assert g.user[u].param in Through(g.user[u]);
    Accumulate(g, profitable, rank, g.user[u].param, |UsesOf(g, g.user[u].param)|, rank[u],
               Verdict(ConstChain(g, g.value[u]) && Versionable(profitable, g.user[u].callee), 0.0, 0.0))
  }

  // ----- the analysis -----

  /** Add the verdicts on all uses of `v` to `e`. */
  method AddUses(g: Graph, profitable: map<FunId, bool>, ghost rank: map<UseId, nat>, v: ValId,
                 ghost bound: nat, e: Expandability)
    requires WellFormed(g, rank)
    requires forall i: nat :: i < |UsesOf(g, v)| ==> UsesOf(g, v)[i] in rank && rank[UsesOf(g, v)[i]] < bound
    modifies e
    ensures e.V() == Accumulate(g, profitable, rank, v, |UsesOf(g, v)|, bound, old(e.V()))
    decreases bound, 0
  {
    var us := UsesOf(g, v);
    for i := 0 to |us|
      invariant e.V() == Accumulate(g, profitable, rank, v, i, bound, old(e.V()))
    {
      var ptrExp := GetPtrExpandability(g, profitable, rank, us[i]);
      e.AndAdd(ptrExp.V());
    }
  }

  /** Follow the uses of a pointer and accumulate their verdicts. */
  method GetPtrExpandability(g: Graph, profitable: map<FunId, bool>, ghost rank: map<UseId, nat>, u: UseId)
    returns (e: Expandability)
    requires WellFormed(g, rank) && u in g.user
    ensures fresh(e) && e.V() == PtrVerdict(g, profitable, rank, u)
    decreases rank[u], 1
  {
    match g.user[u] {
      case GepUser(gep, isPtr) =>
        if isPtr {
          assert gep in Through(g.user[u]);
          e := new Expandability(GepProfit(g.vals[gep]));
          AddUses(g, profitable, rank, gep, rank[u], e);
        } else {
          e := new Expandability(NO);
        }
      case LoadUser(bits, isPtr) =>
        e := new Expandability(Verdict(isPtr, LoadProfit(bits), 0.0));
      case StoreUser(isPtr) =>
        e := new Expandability(Verdict(isPtr, STORE_PROFIT, 0.0));
      case CallUser(relevant, lifetime, callee, param) =>
        if relevant {
          assert param in Through(g.user[u]);
          var constant := ChainHasAllConstantIndices(g, g.value[u]);
          e := new Expandability(Verdict(constant, 0.0, 0.0));
          if callee in profitable {
            e.expandability := e.expandability && profitable[callee];
          }
          AddUses(g, profitable, rank, param, rank[u], e);
          var gotCasted := e.Cast();
        } else {
          e := new Expandability(NO);
        }
      case BitcastUser(cast) =>
        var allLifetime := OnlyLifetimeUses(g, cast);
        e := new Expandability(Verdict(allLifetime, 0.0, 0.0));
      case OtherUser =>
        e := new Expandability(NO);
    }
  }

  method OnlyLifetimeUses(g: Graph, cast: ValId) returns (all: bool)
    ensures all <==> forall i: nat :: i < |UsesOf(g, cast)| ==> IsLifetime(g, UsesOf(g, cast)[i])
  {
    var us := UsesOf(g, cast);
    for i := 0 to |us|
      invariant forall j: nat :: j < i ==> IsLifetime(g, us[j])
    {
      if !IsLifetime(g, us[i]) {
        return false;
      }
    }
    return true;
  }

  /** The verdict on an object: its size gate and all its uses. */
  ghost function ObjectSum(g: Graph, profitable: map<FunId, bool>, rank: map<UseId, nat>, base: ValId,
                           bound: nat, sizeOk: bool): Verdict
    requires WellFormed(g, rank)
    requires forall i: nat :: i < |UsesOf(g, base)| ==> UsesOf(g, base)[i] in rank && rank[UsesOf(g, base)[i]] < bound
  {
    Accumulate(g, profitable, rank, base, |UsesOf(g, base)|, bound, Verdict(sizeOk, 0.0, 0.0))
  }

  method ObjectExpandability(g: Graph, profitable: map<FunId, bool>, ghost rank: map<UseId, nat>, base: ValId,
                             ghost bound: nat, sizeOk: bool) returns (e: Expandability)
    requires WellFormed(g, rank)
    requires forall i: nat :: i < |UsesOf(g, base)| ==> UsesOf(g, base)[i] in rank && rank[UsesOf(g, base)[i]] < bound
    ensures fresh(e) && e.V() == ObjectSum(g, profitable, rank, base, bound, sizeOk).Cast()
  {
    e := new Expandability(Verdict(sizeOk, 0.0, 0.0));
    AddUses(g, profitable, rank, base, bound, e);
    var gotCasted := e.Cast();
  }

  // ----- what a yes means -----

  /** The use can be rewritten. */
  ghost predicate Safe(g: Graph, profitable: map<FunId, bool>, u: UseId)
    requires u in g.user && u in g.value && g.value[u] in g.vals
    requires ChainsDown(g)
  {
    match g.user[u]
    case GepUser(_, isPtr) => isPtr
    case LoadUser(_, isPtr) => isPtr
    case StoreUser(isPtr) => isPtr
    case CallUser(relevant, _, callee, _) =>
      relevant && ConstChain(g, g.value[u]) && Versionable(profitable, callee)
    case BitcastUser(cast) => forall i: nat :: i < |UsesOf(g, cast)| ==> IsLifetime(g, UsesOf(g, cast)[i])
    case OtherUser => false
  }

  /** What a use is worth: three per bit of a load, 96 per constant index of an address computation and
      minus 393216 for an address computation that is not constant, with everything behind it; what is
      behind a call is settled at the call. */
  ghost function Worth(g: Graph, rank: map<UseId, nat>, u: UseId): real
    requires WellFormed(g, rank) && u in g.user
    decreases rank[u], 1, 0
  {
    match g.user[u]
    case LoadUser(bits, _) => 3.0 * (bits as real)
    case GepUser(gep, isPtr) =>
      if !isPtr then 0.0
      else
        assert gep in Through(g.user[u]);
        (match g.vals[gep]
         case GepVal(allConst, numIdxs, _) => if allConst then 96.0 * (numIdxs as real) else -393216.0
         case PlainVal => -393216.0) + WorthOfUses(g, rank, gep, |UsesOf(g, gep)|, rank[u])
    case _ => 0.0
  }

  /** The first `n` uses of `v`, added up. */
  ghost function WorthOfUses(g: Graph, rank: map<UseId, nat>, v: ValId, n: nat, bound: nat): real
    requires WellFormed(g, rank) && n <= |UsesOf(g, v)|
    requires forall i: nat :: i < |UsesOf(g, v)| ==> UsesOf(g, v)[i] in rank && rank[UsesOf(g, v)[i]] < bound
    decreases bound, 0, n
  {
    if n == 0 then 0.0 else WorthOfUses(g, rank, v, n - 1, bound) + Worth(g, rank, UsesOf(g, v)[n - 1])
  }

  /** Verdicts add up what the uses are worth. */
  lemma {:induction false} AccumulateWorth(g: Graph, profitable: map<FunId, bool>, rank: map<UseId, nat>, v: ValId,
                                           n: nat, bound: nat, acc: Verdict)
    requires WellFormed(g, rank) && n <= |UsesOf(g, v)|
    requires forall i: nat :: i < |UsesOf(g, v)| ==> UsesOf(g, v)[i] in rank && rank[UsesOf(g, v)[i]] < bound
    ensures var sum := Accumulate(g, profitable, rank, v, n, bound, acc);
            sum.area + sum.latency == acc.area + acc.latency + WorthOfUses(g, rank, v, n, bound)
    decreases bound, 0, n
  {
    if n > 0 {
      AccumulateWorth(g, profitable, rank, v, n - 1, bound, acc);
      VerdictWorth(g, profitable, rank, UsesOf(g, v)[n - 1]);
    }
  }

  lemma {:induction false} VerdictWorth(g: Graph, profitable: map<FunId, bool>, rank: map<UseId, nat>, u: UseId)
    requires WellFormed(g, rank) && u in g.user
    ensures var e := PtrVerdict(g, profitable, rank, u); e.area + e.latency == Worth(g, rank, u)
    decreases rank[u], 1, 0
  {
    match g.user[u]
    case GepUser(gep, isPtr) =>
      if isPtr {
        assert gep in Through(g.user[u]);
        AccumulateWorth(g, profitable, rank, gep, |UsesOf(g, gep)|, rank[u], GepProfit(g.vals[gep]));
      }
    case _ =>
  }

  /** The use is a relevant call whose parameter's uses are worth it together, or no relevant call. */
  ghost predicate Pays(g: Graph, rank: map<UseId, nat>, u: UseId)
    requires WellFormed(g, rank) && u in g.user
  {
    match g.user[u]
    case CallUser(relevant, _, _, param) =>
      assert relevant ==> param in Through(g.user[u]);
      relevant ==> WorthOfUses(g, rank, param, |UsesOf(g, param)|, rank[u]) >= 0.0
    case _ => true
  }

  /** One step of the analysis: through an address computation, or into the parameter of a
      called function. */
  predicate StepsTo(g: Graph, u: UseId, w: UseId) {
    u in g.user && Through(g.user[u]) != [] && w in UsesOf(g, Through(g.user[u])[0])
  }

  /** A chain of uses from `u`, each one step after the one before it. */
  predicate Trail(g: Graph, u: UseId, t: seq<UseId>)
    decreases t
  {
    t != [] && t[0] == u && u in g.user && (|t| > 1 ==> StepsTo(g, u, t[1]) && Trail(g, t[1], t[1..]))
  }

  function Last(t: seq<UseId>): UseId
    requires t != []
  {
    t[|t| - 1]
  }

  lemma {:induction false} TrailUses(g: Graph, rank: map<UseId, nat>, u: UseId, t: seq<UseId>)
    requires WellFormed(g, rank) && Trail(g, u, t)
    ensures Last(t) in g.user
    decreases t
  {
    if |t| > 1 { TrailUses(g, rank, t[1], t[1..]); }
  }

  /** Every use the analysis can come to from `u` is safe, and every call pays. */
  ghost predicate AllReachedSafe(g: Graph, profitable: map<FunId, bool>, rank: map<UseId, nat>, u: UseId)
    requires WellFormed(g, rank)
  {
    forall t :: Trail(g, u, t) ==> SafeAndPays(g, profitable, rank, Last(t))
  }

  ghost predicate SafeAndPays(g: Graph, profitable: map<FunId, bool>, rank: map<UseId, nat>, u: UseId)
    requires WellFormed(g, rank)
  {
    u in g.user && Safe(g, profitable, u) && Pays(g, rank, u)
  }

  lemma {:induction false} AccumulateOk(g: Graph, profitable: map<FunId, bool>, rank: map<UseId, nat>, v: ValId,
                                        n: nat, bound: nat, acc: Verdict)
    requires WellFormed(g, rank) && n <= |UsesOf(g, v)|
    requires forall i: nat :: i < |UsesOf(g, v)| ==> UsesOf(g, v)[i] in rank && rank[UsesOf(g, v)[i]] < bound
    ensures Accumulate(g, profitable, rank, v, n, bound, acc).ok <==>
            acc.ok && forall i: nat :: i < n ==> PtrVerdict(g, profitable, rank, UsesOf(g, v)[i]).ok
    decreases n
  {
    if n > 0 { AccumulateOk(g, profitable, rank, v, n - 1, bound, acc); }
  }

  /** A use gets a yes exactly when it is safe, pays, and all uses one step on get a yes. */
  lemma YesUnfolds(g: Graph, profitable: map<FunId, bool>, rank: map<UseId, nat>, u: UseId)
    requires WellFormed(g, rank) && u in g.user
    ensures forall w :: StepsTo(g, u, w) ==> w in g.user && w in rank && rank[w] < rank[u]
    ensures PtrVerdict(g, profitable, rank, u).ok <==>
            SafeAndPays(g, profitable, rank, u) &&
            forall w :: StepsTo(g, u, w) ==> w in g.user && PtrVerdict(g, profitable, rank, w).ok
  {
    match g.user[u]
    case GepUser(gep, isPtr) =>
      if isPtr {
        assert gep in Through(g.user[u]);
        AccumulateOk(g, profitable, rank, gep, |UsesOf(g, gep)|, rank[u], GepProfit(g.vals[gep]));
      }
    case CallUser(relevant, _, callee, param) =>
      if relevant {
        assert param in Through(g.user[u]);
        var acc := Verdict(ConstChain(g, g.value[u]) && Versionable(profitable, callee), 0.0, 0.0);
        AccumulateOk(g, profitable, rank, param, |UsesOf(g, param)|, rank[u], acc);
        AccumulateWorth(g, profitable, rank, param, |UsesOf(g, param)|, rank[u], acc);
      }
    case _ =>
  }

  /** The verdict is yes exactly when everything the analysis can come to is safe and pays. */
  lemma {:induction false} VerdictIff(g: Graph, profitable: map<FunId, bool>, rank: map<UseId, nat>, u: UseId)
    requires WellFormed(g, rank) && u in g.user
    ensures PtrVerdict(g, profitable, rank, u).ok <==> AllReachedSafe(g, profitable, rank, u)
    decreases rank[u]
  {
    YesUnfolds(g, profitable, rank, u);
    forall w | StepsTo(g, u, w)
      ensures PtrVerdict(g, profitable, rank, w).ok <==> AllReachedSafe(g, profitable, rank, w)
    {
      VerdictIff(g, profitable, rank, w);
    }
    if PtrVerdict(g, profitable, rank, u).ok {
      forall t | Trail(g, u, t) ensures SafeAndPays(g, profitable, rank, Last(t)) {
        if |t| > 1 { assert Last(t[1..]) == Last(t); }
      }
    }
    if AllReachedSafe(g, profitable, rank, u) {
      assert Trail(g, u, [u]) && Last([u]) == u;
      forall w | StepsTo(g, u, w) ensures AllReachedSafe(g, profitable, rank, w) {
        forall t | Trail(g, w, t) ensures SafeAndPays(g, profitable, rank, Last(t)) {
          TrailCons(g, u, w, t);
        }
      }
    }
  }

  lemma TrailCons(g: Graph, u: UseId, w: UseId, t: seq<UseId>)
    requires StepsTo(g, u, w) && Trail(g, w, t)
    ensures Trail(g, u, [u] + t) && Last([u] + t) == Last(t)
  {
    var all := [u] + t;
    assert all[1..] == t && all[1] == w && all[0] == u;
    assert all[|all| - 1] == t[|t| - 1];
  }

  /** An accepted object passes its size gate, and every use of it that address computations
      and calls lead to can be rewritten. */
  lemma AcceptedObjectIsSafe(g: Graph, profitable: map<FunId, bool>, rank: map<UseId, nat>, base: ValId,
                             bound: nat, sizeOk: bool, u: UseId, t: seq<UseId>)
    requires WellFormed(g, rank)
    requires forall i: nat :: i < |UsesOf(g, base)| ==> UsesOf(g, base)[i] in rank && rank[UsesOf(g, base)[i]] < bound
    requires ObjectSum(g, profitable, rank, base, bound, sizeOk).Cast().ok
    requires u in UsesOf(g, base) && Trail(g, u, t)
    ensures sizeOk && Last(t) in g.user && Safe(g, profitable, Last(t))
  {
    AccumulateOk(g, profitable, rank, base, |UsesOf(g, base)|, bound, Verdict(sizeOk, 0.0, 0.0));
    VerdictIff(g, profitable, rank, u);
  }

  /** An object is accepted exactly when it passes its size gate, everything its uses come to is safe and
      pays, and its uses are worth it together. */
  lemma AcceptedIff(g: Graph, profitable: map<FunId, bool>, rank: map<UseId, nat>, base: ValId, bound: nat,
                    sizeOk: bool)
    requires WellFormed(g, rank)
    requires forall i: nat :: i < |UsesOf(g, base)| ==> UsesOf(g, base)[i] in rank && rank[UsesOf(g, base)[i]] < bound
    ensures ObjectSum(g, profitable, rank, base, bound, sizeOk).Cast().ok <==>
            sizeOk && WorthOfUses(g, rank, base, |UsesOf(g, base)|, bound) >= 0.0 &&
            forall i: nat :: i < |UsesOf(g, base)| ==> AllReachedSafe(g, profitable, rank, UsesOf(g, base)[i])
  {
    var us := UsesOf(g, base);
    AccumulateOk(g, profitable, rank, base, |us|, bound, Verdict(sizeOk, 0.0, 0.0));
    AccumulateWorth(g, profitable, rank, base, |us|, bound, Verdict(sizeOk, 0.0, 0.0));
    forall i: nat | i < |us|
      ensures PtrVerdict(g, profitable, rank, us[i]).ok <==> AllReachedSafe(g, profitable, rank, us[i])
    {
      VerdictIff(g, profitable, rank, us[i]);
    }
  }
}
