/** Function versioning: one version of a function for each way its operands are expanded, and
    the rewriting of every call to the version its call trace asks for.
 */
module Versioning {
  import opened Wrappers
  import opened Calls

  /** Whether an operand is expanded, and its dimensions. */
  type ArgKey = (bool, seq<nat>)

  datatype VKey = VKey(fun: Fun, args: seq<ArgKey>)

  /** A function of the program being rewritten: an original, or a numbered copy of it. */
  datatype Version = Orig(f: Fun) | Clone(f: Fun, no: nat)

  type TraceOf = seq<Node>
  type Sites = map<(TraceOf, Call), seq<ArgKey>>

  /** A call that may follow a trace. */
  predicate CallableAt(p: Program, t: TraceOf, c: Call) {
    p.Trace(t) && c in p.Inner(t[|t| - 1])
  }

  function Masked(args: seq<ArgKey>): seq<ArgKey> {
    seq(|args|, i => (false, []))
  }

  /** The version a call asks for when it is reached along a trace: functions that do not pay
      for versioning get one version without expanded operands. */
  function KeyAt(p: Program, sites: Sites, profitable: set<Fun>, t: TraceOf, c: Call): VKey {
    var args := if (t, c) in sites then sites[(t, c)] else [];
    VKey(p.Callee(c), if p.Callee(c) in profitable then args else Masked(args))
  }

  /** `k` is the version that a call described by `args` is to get: of its callee, with the operands
      expanded as described if that function pays for versioning, and with none expanded if not. */
  predicate AsksFor(p: Program, profitable: set<Fun>, c: Call, args: seq<ArgKey>, k: VKey) {
    k.fun == p.Callee(c) && |k.args| == |args| &&
    forall i: nat :: i < |args| ==> k.args[i] == if p.Callee(c) in profitable then args[i] else (false, [])
  }

  lemma AsksForIff(p: Program, sites: Sites, profitable: set<Fun>, t: TraceOf, c: Call, k: VKey)
    requires (t, c) in sites
    ensures AsksFor(p, profitable, c, sites[(t, c)], k) <==> k == KeyAt(p, sites, profitable, t, c)
  {
    if AsksFor(p, profitable, c, sites[(t, c)], k) {
      assert k.args == KeyAt(p, sites, profitable, t, c).args;
    }
  }

  /** Each call is in one place of one function, and there is no recursion. */
  ghost predicate WellCalled(p: Program, rank: map<Fun, nat>, home: map<Call, Fun>) {
    (forall f: Fun, c :: c in p.RelevantIn(p.Body(f)) ==> c in home && home[c] == f) &&
    (forall f: Fun :: Distinct(p.RelevantIn(p.Body(f)))) &&
    p.kernel in rank &&
    forall f: Fun, c | f in rank && c in p.RelevantIn(p.Body(f)) :: p.Callee(c) in rank && rank[p.Callee(c)] < rank[f]
  }

  /** The inputs of the rewriting: every call of every trace has its operand description. */
  ghost predicate Prepared(p: Program, rank: map<Fun, nat>, home: map<Call, Fun>, sites: Sites) {
    WellCalled(p, rank, home) && forall t: TraceOf, c: Call | CallableAt(p, t, c) :: (t, c) in sites
  }

  predicate Distinct(cs: seq<Call>) {
    forall i: nat, j: nat :: i < j < |cs| ==> cs[i] != cs[j]
  }

  /** Every key that some trace asks for has its own version of its own function; an original
      serves as a version only when its function has no other. */
  ghost predicate VersionsFor(p: Program, sites: Sites, profitable: set<Fun>, versions: map<VKey, Version>) {
    (forall t, c | (t, c) in sites :: KeyAt(p, sites, profitable, t, c) in versions) &&
    (forall k | k in versions :: versions[k].f == k.fun) &&
    (forall k, l | k in versions && l in versions && versions[k] == versions[l] :: k == l) &&
    (forall k, l | k in versions && l in versions && versions[k].Orig? && l.fun == k.fun :: l == k)
  }

  lemma {:induction false} TraceRank(p: Program, rank: map<Fun, nat>, home: map<Call, Fun>, sites: Sites,
                                     t: TraceOf, k: nat)
    requires Prepared(p, rank, home, sites) && p.Trace(t) && k < |t|
    ensures p.FunOf(t[k]) in rank && rank[p.FunOf(t[k])] <= rank[p.kernel]
    ensures k > 0 ==> rank[p.FunOf(t[k])] < rank[p.kernel]
    decreases k
  {
    if k > 0 {
      TraceRank(p, rank, home, sites, t, k - 1);
      assert p.CalledAt(t, k);
    }
  }

  // ----- the operand descriptions, one for every call of every trace -----

  /** A call operand: the trace its call follows, the call, and the number of the operand. */
  type Operand = (TraceOf, Call, nat)

  function NumOperands(operands: map<Call, nat>, c: Call): nat {
    if c in operands then operands[c] else 0
  }

  /** No operand of the call is expanded. */
  predicate IsBlank(operands: map<Call, nat>, c: Call, args: seq<ArgKey>) {
    |args| == NumOperands(operands, c) && forall i: nat :: i < |args| ==> args[i] == (false, [])
  }

  /** All descriptions but those in `sites` are blank. */
  ghost predicate BlankSince(operands: map<Call, nat>, sites: Sites, r: Sites) {
    forall t: TraceOf, c: Call | (t, c) in r ::
      ((t, c) in sites && r[(t, c)] == sites[(t, c)]) || IsBlank(operands, c, r[(t, c)])
  }

  lemma BlankTwice(operands: map<Call, nat>, sites: Sites, r: Sites, q: Sites)
    requires BlankSince(operands, sites, r) && BlankSince(operands, r, q)
    ensures BlankSince(operands, sites, q)
  {
  }

  /** Enter a blank description for every call of every trace below a node. */
  method InitializeCallsites(p: Program, ghost rank: map<Fun, nat>, operands: map<Call, nat>, n: Node, t: TraceOf,
                             sites: Sites) returns (r: Sites)
    requires p.Trace(t + [n])
    requires p.FunOf(n) in rank && forall f: Fun, c | f in rank && c in p.RelevantIn(p.Body(f)) ::
               p.Callee(c) in rank && rank[p.Callee(c)] < rank[f]
    ensures forall u: TraceOf, c: Call :: (u, c) in r <==> (u, c) in sites || Below(p, n, t, u, c)
    ensures BlankSince(operands, sites, r)
    decreases rank[p.FunOf(n)]
  {
    r := sites;
    if n.At? {
      r := r[(t, n.call) := seq(NumOperands(operands, n.call), i => (false, []))];
    }
    var calls := p.Inner(n);
    ghost var start := r;
    for i := 0 to |calls|
      invariant forall u: TraceOf, c: Call :: (u, c) in r <==> (u, c) in start || BelowFirst(p, t + [n], calls, i, u, c)
      invariant BlankSince(operands, sites, r)
    {
      p.TraceExtends(t + [n], calls[i]);
      ghost var before := r;
      r := InitializeCallsites(p, rank, operands, At(calls[i]), t + [n], r);
      BlankTwice(operands, sites, before, r);
    }
    AllUnderSplit(p, n, t);
  }

  /** `u` extends `s`, and `c` may follow it. */
  predicate Under(p: Program, s: TraceOf, u: TraceOf, c: Call) {
    CallableAt(p, u, c) && s <= u
  }

  predicate Below(p: Program, n: Node, t: TraceOf, u: TraceOf, c: Call) {
    (n == At(c) && u == t) || Under(p, t + [n], u, c)
  }

  ghost predicate BelowFirst(p: Program, s: TraceOf, calls: seq<Call>, i: nat, u: TraceOf, c: Call)
    requires i <= |calls|
  {
    exists j: nat :: j < i && Below(p, At(calls[j]), s, u, c)
  }

  lemma AllUnderSplit(p: Program, n: Node, t: TraceOf)
    requires p.Trace(t + [n])
    ensures forall u: TraceOf, c: Call ::
              BelowFirst(p, t + [n], p.Inner(n), |p.Inner(n)|, u, c) <==> Under(p, t + [n], u, c)
  {
    forall u: TraceOf, c: Call
      ensures BelowFirst(p, t + [n], p.Inner(n), |p.Inner(n)|, u, c) <==> Under(p, t + [n], u, c)
    {
      UnderSplits(p, n, t, u, c);
    }
  }

  lemma UnderSplits(p: Program, n: Node, t: TraceOf, u: TraceOf, c: Call)
    requires p.Trace(t + [n])
    ensures BelowFirst(p, t + [n], p.Inner(n), |p.Inner(n)|, u, c) <==> Under(p, t + [n], u, c)
  {
    var s, calls := t + [n], p.Inner(n);
    assert s[|s| - 1] == n;
    if Under(p, s, u, c) {
      if u == s {
        var j :| 0 <= j < |calls| && calls[j] == c;
        assert Below(p, At(calls[j]), s, u, c);
      } else {
        assert p.CalledAt(u, |s|) && u[|s| - 1] == s[|s| - 1];
        var j :| 0 <= j < |calls| && calls[j] == u[|s|].call;
        assert s + [At(calls[j])] <= u;
        assert Below(p, At(calls[j]), s, u, c);
      }
    }
  }

  /** All calls of all traces have a description, at first a blank one, and nothing else has. */
  method AllCallsites(p: Program, ghost rank: map<Fun, nat>, operands: map<Call, nat>) returns (sites: Sites)
    requires p.kernel in rank && forall f: Fun, c | f in rank && c in p.RelevantIn(p.Body(f)) ::
               p.Callee(c) in rank && rank[p.Callee(c)] < rank[f]
    ensures forall t: TraceOf, c: Call :: (t, c) in sites <==> CallableAt(p, t, c)
    ensures forall t: TraceOf, c: Call | (t, c) in sites :: IsBlank(operands, c, sites[(t, c)])
  {
    sites := InitializeCallsites(p, rank, operands, Kernel, [], map[]);
    forall t: TraceOf, c: Call ensures Under(p, [Kernel], t, c) <==> CallableAt(p, t, c) {
      if CallableAt(p, t, c) { assert t[0] == Kernel; }
    }
  }

  /** The description of a call by what the analyses found for the operands in `done`: blank elsewhere. */
  predicate Describes(operands: map<Call, nat>, exp: map<Operand, bool>, dims: map<Operand, seq<nat>>,
                      done: set<Operand>, t: TraceOf, c: Call, args: seq<ArgKey>)
    requires done <= exp.Keys && done <= dims.Keys
  {
    |args| == NumOperands(operands, c) &&
    forall i: nat :: i < |args| ==>
      args[i] == if (t, c, i) in done then (exp[(t, c, i)], dims[(t, c, i)]) else (false, [])
  }

  ghost predicate AllDescribed(operands: map<Call, nat>, exp: map<Operand, bool>, dims: map<Operand, seq<nat>>,
                               done: set<Operand>, sites: Sites)
    requires done <= exp.Keys && done <= dims.Keys
  {
    forall t: TraceOf, c: Call :: (t, c) in sites ==> Describes(operands, exp, dims, done, t, c, sites[(t, c)])
  }

  /** An operand of a call of a trace. */
  predicate IsOperand(p: Program, operands: map<Call, nat>, o: Operand) {
    CallableAt(p, o.0, o.1) && o.2 < NumOperands(operands, o.1)
  }

  /** Enter what the analyses found into the blank descriptions.  The compiler stops when they speak of
      different operands, or of one that no call has. */
  method DescribeOperands(p: Program, operands: map<Call, nat>, exp: map<Operand, bool>,
                          dims: map<Operand, seq<nat>>, blank: Sites) returns (r: Option<Sites>)
    requires forall t: TraceOf, c: Call :: (t, c) in blank <==> CallableAt(p, t, c)
    requires forall t: TraceOf, c: Call | (t, c) in blank :: IsBlank(operands, c, blank[(t, c)])
    ensures r.Some? <==> exp.Keys == dims.Keys && AreOperands(p, operands, exp.Keys)
    ensures r.Some? ==> r.value.Keys == blank.Keys && AllDescribed(operands, exp, dims, exp.Keys, r.value)
  {
    if exp.Keys != dims.Keys {
      return None;
    }
    var sites, left := blank, exp.Keys;
    while left != {}
      invariant left <= exp.Keys && sites.Keys == blank.Keys
      invariant AllDescribed(operands, exp, dims, exp.Keys - left, sites)
      invariant AreOperands(p, operands, exp.Keys - left)
      decreases left
    {
      var o: Operand :| o in left;
      assert (o.0, o.1) in sites.Keys <==> (o.0, o.1) in blank.Keys;
      var more := EnterOperand(p, operands, exp, dims, left, o, sites);
      if more.None? {
        return None;
      }
      sites, left := more.value, left - {o};
    }
    assert exp.Keys - left == exp.Keys;
    r := Some(sites);
  }

  ghost predicate AreOperands(p: Program, operands: map<Call, nat>, os: set<Operand>) {
    forall o | o in os :: IsOperand(p, operands, o)
  }

  /** Enter what was found for one operand. */
  method EnterOperand(p: Program, operands: map<Call, nat>, exp: map<Operand, bool>, dims: map<Operand, seq<nat>>,
                      ghost left: set<Operand>, o: Operand, sites: Sites) returns (r: Option<Sites>)
    requires exp.Keys == dims.Keys && o in left && left <= exp.Keys
    requires (o.0, o.1) in sites <==> CallableAt(p, o.0, o.1)
    requires AllDescribed(operands, exp, dims, exp.Keys - left, sites)
    requires AreOperands(p, operands, exp.Keys - left)
    ensures r.None? ==> !AreOperands(p, operands, exp.Keys)
    ensures r.Some? ==> r.value.Keys == sites.Keys && AreOperands(p, operands, exp.Keys - (left - {o}))
    ensures r.Some? ==> AllDescribed(operands, exp, dims, exp.Keys - (left - {o}), r.value)
  {
    if (o.0, o.1) !in sites {
      assert !IsOperand(p, operands, o);
      return None;
    }
    assert Describes(operands, exp, dims, exp.Keys - left, o.0, o.1, sites[(o.0, o.1)]);
    if o.2 >= |sites[(o.0, o.1)]| {
      assert !IsOperand(p, operands, o);
      return None;
    }
    assert IsOperand(p, operands, o);
    OneMoreOperand(operands, exp, dims, left, o, sites);
    r := Some(sites[(o.0, o.1) := sites[(o.0, o.1)][o.2 := (exp[o], dims[o])]]);
  }

  lemma OneMoreOperand(operands: map<Call, nat>, exp: map<Operand, bool>, dims: map<Operand, seq<nat>>,
                       left: set<Operand>, o: Operand, sites: Sites)
    requires exp.Keys == dims.Keys && o in left && left <= exp.Keys
    requires (o.0, o.1) in sites && o.2 < |sites[(o.0, o.1)]|
    requires AllDescribed(operands, exp, dims, exp.Keys - left, sites)
    ensures AllDescribed(operands, exp, dims, exp.Keys - (left - {o}),
                         sites[(o.0, o.1) := sites[(o.0, o.1)][o.2 := (exp[o], dims[o])]])
  {
    var all := sites[(o.0, o.1) := sites[(o.0, o.1)][o.2 := (exp[o], dims[o])]];
    assert Describes(operands, exp, dims, exp.Keys - left, o.0, o.1, sites[(o.0, o.1)]);
    forall t: TraceOf, c: Call | (t, c) in all
      ensures Describes(operands, exp, dims, exp.Keys - (left - {o}), t, c, all[(t, c)])
    {
      assert Describes(operands, exp, dims, exp.Keys - left, t, c, sites[(t, c)]);
    }
  }

  // ----- the versions -----

  lemma OnlyOne<T>(s: set<T>, x: T)
    requires |s| == 1 && x in s
    ensures s == {x}
  {
    assert |s - {x}| == 0;
  }

  /** The versions made so far, with copies numbered below `no`. */
  ghost predicate MadeOf(f: Fun, single: bool, no: nat, local: map<VKey, Version>) {
    (forall k | k in local :: if single then local[k] == Orig(f) else local[k].Clone? && local[k].f == f) &&
    (forall k | k in local && local[k].Clone? :: local[k].no < no) &&
    forall k, l | k in local && l in local && local[k] == local[l] :: k == l
  }

  lemma OneMoreVersion(f: Fun, single: bool, no: nat, local: map<VKey, Version>, k: VKey)
    requires MadeOf(f, single, no, local) && k !in local && (single ==> local == map[])
    ensures MadeOf(f, single, no + 1, local[k := if single then Orig(f) else Clone(f, no)])
  {
  }

  /** A function keeps its own name for its version only when that is its only one. */
  ghost predicate CopiesHaveSiblings(versions: map<VKey, Version>) {
    forall k | k in versions && versions[k].Clone? :: HasSibling(versions, k)
  }

  ghost predicate HasSibling(versions: map<VKey, Version>, k: VKey) {
    exists l :: l in versions && l.fun == k.fun && l != k
  }

  lemma SiblingOf(f: Fun, keys: set<VKey>, local: map<VKey, Version>, k: VKey)
    requires local.Keys == keys && |keys| != 1 && k in keys && forall l | l in keys :: l.fun == f
    ensures HasSibling(local, k)
  {
    assert |keys - {k}| == |keys| - 1;
    var l :| l in keys - {k};
  }

  lemma MoreSiblings(versions: map<VKey, Version>, local: map<VKey, Version>)
    requires CopiesHaveSiblings(versions) && CopiesHaveSiblings(local)
    requires forall k | k in local :: k !in versions
    ensures CopiesHaveSiblings(versions + local)
  {
    var all := versions + local;
    forall k | k in all && all[k].Clone? ensures HasSibling(all, k) {
      if k in local {
        var l :| l in local && l.fun == k.fun && l != k;
        assert l in all;
      } else {
        var l :| l in versions && l.fun == k.fun && l != k;
        assert l in all;
      }
    }
  }

  /** The versions of one function: itself when one key is asked for, numbered copies else. */
  method VersionFunction(f: Fun, keys: set<VKey>) returns (local: map<VKey, Version>)
    requires forall k | k in keys :: k.fun == f
    ensures local.Keys == keys
    ensures forall k | k in keys :: local[k].f == f
    ensures forall k, l | k in keys && l in keys && local[k] == local[l] :: k == l
    ensures forall k | k in keys && local[k].Orig? :: keys == {k}
    ensures forall k | k in keys :: if |keys| == 1 then local[k] == Orig(f) else local[k].Clone? && local[k].no < |keys|
    ensures CopiesHaveSiblings(local)
  {
    local := map[];
    var single := |keys| == 1;
    var left, versionId := keys, 0;
    while left != {}
      invariant left <= keys && local.Keys == keys - left && MadeOf(f, single, versionId, local)
      invariant versionId + |left| == |keys|
      decreases left
    {
      var k :| k in left;
      if single { OnlyOne(keys, k); }
      OneMoreVersion(f, single, versionId, local, k);
      local := local[k := if single then Orig(f) else Clone(f, versionId)];
      left := left - {k};
      versionId := versionId + 1;
    }
    forall k | k in keys && local[k].Orig? ensures keys == {k} {
      OnlyOne(keys, k);
    }
    forall k | k in local && local[k].Clone? ensures HasSibling(local, k) {
      SiblingOf(f, keys, local, k);
    }
  }

  /** The versions of all functions outside `left`. */
  ghost predicate VersionsBut(p: Program, sites: Sites, profitable: set<Fun>, left: set<Fun>,
                              versions: map<VKey, Version>) {
    (forall t: TraceOf, c: Call | (t, c) in sites && p.Callee(c) !in left ::
       KeyAt(p, sites, profitable, t, c) in versions) &&
    (forall k | k in versions :: versions[k].f == k.fun && k.fun !in left) &&
    (forall k, l | k in versions && l in versions && versions[k] == versions[l] :: k == l) &&
    (forall k, l | k in versions && l in versions && versions[k].Orig? && l.fun == k.fun :: l == k)
  }

  lemma OneMoreFunction(p: Program, sites: Sites, profitable: set<Fun>, left: set<Fun>, f: Fun,
                        versions: map<VKey, Version>, local: map<VKey, Version>)
    requires VersionsBut(p, sites, profitable, left, versions) && f in left
    requires forall t: TraceOf, c: Call | (t, c) in sites && p.Callee(c) == f ::
               KeyAt(p, sites, profitable, t, c) in local
    requires forall k | k in local :: local[k].f == f && k.fun == f
    requires forall k, l | k in local && l in local && local[k] == local[l] :: k == l
    requires forall k | k in local && local[k].Orig? :: local.Keys == {k}
    ensures VersionsBut(p, sites, profitable, left - {f}, versions + local)
  {
    var all := versions + local;
    forall k | k in all ensures all[k] == if k in local then local[k] else versions[k] {}
    forall k, l | k in all && l in all && all[k].Orig? && l.fun == k.fun ensures l == k {
      if k in local { assert l in local.Keys; }
    }
  }

  /** Some call of some trace is to get the version. */
  ghost predicate IsAsked(p: Program, sites: Sites, profitable: set<Fun>, k: VKey) {
    exists t: TraceOf, c: Call :: AsksAt(p, sites, profitable, t, c, k)
  }

  predicate AsksAt(p: Program, sites: Sites, profitable: set<Fun>, t: TraceOf, c: Call, k: VKey) {
    (t, c) in sites && AsksFor(p, profitable, c, sites[(t, c)], k)
  }

  /** The keys that the calls of one function ask for. */
  method KeysOf(p: Program, sites: Sites, profitable: set<Fun>, f: Fun) returns (keys: set<VKey>)
    ensures forall t: TraceOf, c: Call | (t, c) in sites && p.Callee(c) == f :: KeyAt(p, sites, profitable, t, c) in keys
    ensures forall k | k in keys :: k.fun == f && IsAsked(p, sites, profitable, k)
  {
    keys := set s | s in sites && p.Callee(s.1) == f :: KeyAt(p, sites, profitable, s.0, s.1);
    KeysAreAsked(p, sites, profitable, f, keys);
  }

  lemma KeysAreAsked(p: Program, sites: Sites, profitable: set<Fun>, f: Fun, keys: set<VKey>)
    requires keys == set s | s in sites && p.Callee(s.1) == f :: KeyAt(p, sites, profitable, s.0, s.1)
    ensures forall k | k in keys :: IsAsked(p, sites, profitable, k)
  {
    forall k | k in keys ensures IsAsked(p, sites, profitable, k) {
      var t: TraceOf, c: Call :| (t, c) in sites && p.Callee(c) == f && KeyAt(p, sites, profitable, t, c) == k;
      AsksForIff(p, sites, profitable, t, c, k);
      assert AsksAt(p, sites, profitable, t, c, k);
    }
  }

  /** Gather the keys that all calls ask for and make the versions, function by function. */
  method BuildVersions(p: Program, sites: Sites, profitable: set<Fun>, worklist: set<Fun>)
    returns (versions: map<VKey, Version>)
    requires forall t: TraceOf, c: Call | (t, c) in sites :: p.Callee(c) in worklist
    ensures VersionsFor(p, sites, profitable, versions)
    ensures forall k | k in versions :: k.fun in worklist && IsAsked(p, sites, profitable, k)
    ensures CopiesHaveSiblings(versions)
  {
    versions := map[];
    var left := worklist;
    while left != {}
      invariant left <= worklist && VersionsBut(p, sites, profitable, left, versions)
      invariant forall k | k in versions :: k.fun in worklist && IsAsked(p, sites, profitable, k)
      invariant CopiesHaveSiblings(versions)
      decreases left
    {
      var f :| f in left;
      var keys := KeysOf(p, sites, profitable, f);
      var local := VersionFunction(f, keys);
      OneMoreFunction(p, sites, profitable, left, f, versions, local);
      MoreSiblings(versions, local);
      versions := versions + local;
      left := left - {f};
    }
  }

  // ----- the rewriting of the calls -----

  /** The inputs the rewriting works from. */
  datatype Job = Job(p: Program, sites: Sites, profitable: set<Fun>, versions: map<VKey, Version>,
                     rank: map<Fun, nat>, home: map<Call, Fun>) {

    ghost predicate Valid() {
      Prepared(p, rank, home, sites) && VersionsFor(p, sites, profitable, versions)
    }

    function Key(t: TraceOf, c: Call): VKey {
      KeyAt(p, sites, profitable, t, c)
    }

    /** The version a call asks for when reached along a trace. */
    function Asked(t: TraceOf, c: Call): Version {
      if Key(t, c) in versions then versions[Key(t, c)] else Orig(p.Callee(c))
    }
  }

  type Rewrites = map<(Version, Call), Version>

  /** The function a call instruction calls: its original callee until it is rewritten. */
  function Called(p: Program, rw: Rewrites, v: Version, c: Call): Version {
    if (v, c) in rw then rw[(v, c)] else Orig(p.Callee(c))
  }

  /** `via[k]` is the trace and the call along which version `k` was first come to. */
  type Vias = map<VKey, (TraceOf, Call)>

  ghost predicate ViaOk(j: Job, via: Vias, k: VKey)
  {
    k in via && k in j.versions && CallableAt(j.p, via[k].0, via[k].1) && j.Key(via[k].0, via[k].1) == k
  }

  ghost predicate HasVia(j: Job, via: Vias, v: Version)
  {
    exists k :: ViaOk(j, via, k) && j.versions[k] == v
  }

  /** A call is rewritten in the kernel or in a version come to, in the function it is in, and to
      a version come to of the function it calls. */
  ghost predicate EntryOk(j: Job, via: Vias, v: Version, c: Call, w: Version)
  {
    c in j.p.RelevantIn(j.p.Body(v.f)) && (v == Orig(j.p.kernel) || HasVia(j, via, v)) &&
    HasVia(j, via, w) && w.f == j.p.Callee(c)
  }

  ghost predicate Sound(j: Job, rw: Rewrites, via: Vias)
  {
    (forall k | k in via :: ViaOk(j, via, k)) &&
    forall v: Version, c: Call {:trigger EntryOk(j, via, v, c, rw[(v, c)])} | (v, c) in rw ::
      EntryOk(j, via, v, c, rw[(v, c)])
  }

  /** The call `c` in version `v`, reached along `t`, was rewritten to the version it asks for. */
  ghost predicate Rewired(j: Job, rw: Rewrites, via: Vias, v: Version, t: TraceOf, c: Call)
  {
    CallableAt(j.p, t, c) && (v, c) in rw && rw[(v, c)] == j.Asked(t, c) && j.Key(t, c) in via
  }

  /** All calls of version `k` were rewritten as its first trace asks. */
  ghost predicate Done(j: Job, rw: Rewrites, via: Vias, k: VKey)
  {
    ViaOk(j, via, k) &&
    var t := via[k].0 + [At(via[k].1)];
    forall c {:trigger Rewired(j, rw, via, j.versions[k], t, c)} | c in j.p.RelevantIn(j.p.Body(k.fun)) ::
      Rewired(j, rw, via, j.versions[k], t, c)
  }

  /** Nothing is rewritten twice and nothing come to is forgotten. */
  ghost predicate Later(rw0: Rewrites, via0: Vias, rw: Rewrites, via: Vias) {
    (forall e | e in rw0 :: e in rw && rw[e] == rw0[e]) && forall k | k in via0 :: k in via && via[k] == via0[k]
  }

  /** New entries are in one given version for one given call, or in versions first come to now,
      which lie below it. */
  ghost predicate NewBelow(j: Job, rw0: Rewrites, via0: Vias, rw: Rewrites, via: Vias, v0: Version, cs: set<Call>)
  {
    (forall v: Version, c: Call | (v, c) in rw && (v, c) !in rw0 ::
       (v == v0 && c in cs) || Lower(j, v.f, v0.f)) &&
    forall k | k in via && k !in via0 :: Lower(j, k.fun, v0.f)
  }

  ghost predicate Lower(j: Job, f: Fun, g: Fun) {
    f in j.rank && g in j.rank && j.rank[f] < j.rank[g]
  }

  /** All versions first come to since are done. */
  ghost predicate AllDone(j: Job, via0: Vias, rw: Rewrites, via: Vias)
  {
    forall k | k in via && k !in via0 :: Done(j, rw, via, k)
  }

  lemma DoneLasts(j: Job, rw0: Rewrites, via0: Vias, rw: Rewrites, via: Vias, k: VKey)
    requires Done(j, rw0, via0, k) && Later(rw0, via0, rw, via)
    ensures Done(j, rw, via, k)
  {
    var t := via[k].0 + [At(via[k].1)];
    forall c | c in j.p.RelevantIn(j.p.Body(k.fun)) ensures Rewired(j, rw, via, j.versions[k], t, c) {
      assert Rewired(j, rw0, via0, j.versions[k], t, c);
    }
  }

  /** A version that was not come to before, and the original it is a version of, have no
      rewritten calls yet. */
  lemma Untouched(j: Job, rw: Rewrites, via: Vias, t: TraceOf, c: Call, d: Call)
    requires j.Valid() && Sound(j, rw, via) && CallableAt(j.p, t, c) && j.Key(t, c) !in via
    requires d in j.p.RelevantIn(j.p.Body(j.p.Callee(c)))
    ensures (j.Asked(t, c), d) !in rw && (Orig(j.p.Callee(c)), d) !in rw
  {
    j.p.TraceExtends(t, c);
    TraceRank(j.p, j.rank, j.home, j.sites, t + [At(c)], |t|);
    LookupsSucceed(j, t, c);
    NotComeTo(j, rw, via, t, c, j.Asked(t, c), d);
    NotComeTo(j, rw, via, t, c, Orig(j.p.Callee(c)), d);
  }

  lemma NotComeTo(j: Job, rw: Rewrites, via: Vias, t: TraceOf, c: Call, v: Version, d: Call)
    requires VersionsFor(j.p, j.sites, j.profitable, j.versions) && Sound(j, rw, via)
    requires j.Key(t, c) in j.versions && j.Key(t, c) !in via
    requires v == j.versions[j.Key(t, c)] || v == Orig(j.p.Callee(c))
    requires v != Orig(j.p.kernel)
    ensures (v, d) !in rw
  {
    assert (v, d) in rw ==> EntryOk(j, via, v, d, rw[(v, d)]);
    forall k | ViaOk(j, via, k) ensures j.versions[k] != v {
      assert k != j.Key(t, c);
    }
  }

  /** The lookups on the way to the version a call asks for succeed: its function, its operands,
      and a version of its callee. */
  ghost predicate Known(j: Job, t: TraceOf, c: Call) {
    CallableAt(j.p, t, c) && c in j.home && j.home[c] == j.p.FunOf(t[|t| - 1]) && (t, c) in j.sites &&
    j.Key(t, c) in j.versions && j.versions[j.Key(t, c)].f == j.p.Callee(c)
  }

  lemma LookupsSucceed(j: Job, t: TraceOf, c: Call)
    requires j.Valid() && CallableAt(j.p, t, c)
    ensures Known(j, t, c)
  {
    assert (t, c) in j.sites;
  }

  /** One state of the rewriting after another. */
  ghost predicate Follows(j: Job, rw0: Rewrites, via0: Vias, rw: Rewrites, via: Vias, v0: Version, cs: set<Call>)
  {
    Sound(j, rw, via) && Later(rw0, via0, rw, via) && NewBelow(j, rw0, via0, rw, via, v0, cs) &&
    AllDone(j, via0, rw, via)
  }

  lemma FollowsTwice(j: Job, rw0: Rewrites, via0: Vias, rw1: Rewrites, via1: Vias, rw2: Rewrites, via2: Vias,
                     v0: Version, cs: set<Call>, ds: set<Call>)
    requires Follows(j, rw0, via0, rw1, via1, v0, cs) && Follows(j, rw1, via1, rw2, via2, v0, ds)
    ensures Follows(j, rw0, via0, rw2, via2, v0, cs + ds)
  {
    forall k | k in via2 && k !in via0 ensures Done(j, rw2, via2, k) {
      if k in via1 { DoneLasts(j, rw1, via1, rw2, via2, k); }
    }
  }

  lemma ViaLasts(j: Job, via: Vias, via1: Vias, v: Version)
    requires HasVia(j, via, v) && forall k | k in via :: k in via1 && via1[k] == via[k]
    ensures HasVia(j, via1, v)
  {
    var k :| ViaOk(j, via, k) && j.versions[k] == v;
    assert ViaOk(j, via1, k);
  }

  lemma EntryLasts(j: Job, via: Vias, via1: Vias, v: Version, c: Call, w: Version)
    requires EntryOk(j, via, v, c, w) && forall k | k in via :: k in via1 && via1[k] == via[k]
    ensures EntryOk(j, via1, v, c, w)
  {
    ViaLasts(j, via, via1, w);
    if v != Orig(j.p.kernel) { ViaLasts(j, via, via1, v); }
  }

  /** Rewriting one call. */
  lemma RewriteOne(j: Job, rw: Rewrites, via: Vias, parent: Version, t: TraceOf, c: Call)
    requires Known(j, t, c) && Sound(j, rw, via) && parent.f == j.p.FunOf(t[|t| - 1])
    requires parent == Orig(j.p.kernel) || HasVia(j, via, parent)
    requires (parent, c) !in rw
    ensures var rw1 := rw[(parent, c) := j.Asked(t, c)];
            var via1 := if j.Key(t, c) in via then via else via[j.Key(t, c) := (t, c)];
            Sound(j, rw1, via1) && Later(rw, via, rw1, via1) && Rewired(j, rw1, via1, parent, t, c)
  {
    ViaAdded(j, via, t, c);
    EntryAdded(j, rw, via, if j.Key(t, c) in via then via else via[j.Key(t, c) := (t, c)], parent, c, j.Asked(t, c));
  }

  lemma ViaAdded(j: Job, via: Vias, t: TraceOf, c: Call)
    requires CallableAt(j.p, t, c) && j.Key(t, c) in j.versions && forall k | k in via :: ViaOk(j, via, k)
    ensures var via1 := if j.Key(t, c) in via then via else via[j.Key(t, c) := (t, c)];
            (forall k | k in via1 :: ViaOk(j, via1, k)) && HasVia(j, via1, j.versions[j.Key(t, c)])
  {
    var key := j.Key(t, c);
    var via1 := if key in via then via else via[key := (t, c)];
    forall k | k in via1 ensures ViaOk(j, via1, k) {
      if k in via { assert ViaOk(j, via, k); }
    }
    assert ViaOk(j, via1, key);
  }

  lemma EntryAdded(j: Job, rw: Rewrites, via: Vias, via1: Vias, parent: Version, c: Call, w: Version)
    requires Sound(j, rw, via) && (forall k | k in via :: k in via1 && via1[k] == via[k])
    requires (forall k | k in via1 :: ViaOk(j, via1, k)) && HasVia(j, via1, w) && w.f == j.p.Callee(c)
    requires c in j.p.RelevantIn(j.p.Body(parent.f)) && (parent == Orig(j.p.kernel) || HasVia(j, via, parent))
    ensures Sound(j, rw[(parent, c) := w], via1)
  {
    var rw1 := rw[(parent, c) := w];
    forall v: Version, d: Call | (v, d) in rw1 ensures EntryOk(j, via1, v, d, rw1[(v, d)]) {
      if v == parent && d == c {
        if v != Orig(j.p.kernel) { ViaLasts(j, via, via1, v); }
      } else {
        EntryLasts(j, via, via1, v, d, rw[(v, d)]);
      }
    }
  }

  /** Having rewritten one call and then all calls of the version it asks for. */
  lemma RewriteBelow(j: Job, rw: Rewrites, via: Vias, parent: Version, t: TraceOf, c: Call,
                     rw2: Rewrites, via2: Vias, ds: set<Call>)
    requires j.Valid() && CallableAt(j.p, t, c) && parent.f == j.p.FunOf(t[|t| - 1])
    requires (parent, c) !in rw && j.Key(t, c) !in via
    requires Follows(j, rw[(parent, c) := j.Asked(t, c)], via[j.Key(t, c) := (t, c)], rw2, via2, j.Asked(t, c), ds)
    requires forall d | d in j.p.RelevantIn(j.p.Body(j.p.Callee(c))) ::
               Rewired(j, rw2, via2, j.Asked(t, c), t + [At(c)], d)
    ensures Follows(j, rw, via, rw2, via2, parent, {c}) && Rewired(j, rw2, via2, parent, t, c)
  {
    LaterBelow(j, rw, via, parent, t, c, rw2, via2, ds);
    OneMoreDone(j, via, via[j.Key(t, c) := (t, c)], rw2, via2, t, c);
  }

  lemma LaterBelow(j: Job, rw: Rewrites, via: Vias, parent: Version, t: TraceOf, c: Call,
                   rw2: Rewrites, via2: Vias, ds: set<Call>)
    requires j.Valid() && CallableAt(j.p, t, c) && parent.f == j.p.FunOf(t[|t| - 1])
    requires (parent, c) !in rw && j.Key(t, c) !in via
    requires var rw1, via1 := rw[(parent, c) := j.Asked(t, c)], via[j.Key(t, c) := (t, c)];
             Later(rw1, via1, rw2, via2) && NewBelow(j, rw1, via1, rw2, via2, j.Asked(t, c), ds)
    ensures Later(rw, via, rw2, via2) && NewBelow(j, rw, via, rw2, via2, parent, {c})
    ensures Rewired(j, rw2, via2, parent, t, c)
  {
    var key, v := j.Key(t, c), j.Asked(t, c);
    var rw1, via1 := rw[(parent, c) := v], via[key := (t, c)];
    assert (parent, c) in rw1 && key in via1;
    TraceRank(j.p, j.rank, j.home, j.sites, t, |t| - 1);
    BelowParent(j, rw, via, rw1, via1, rw2, via2, parent, v, c, key, ds);
  }

  lemma OneMoreDone(j: Job, via: Vias, via1: Vias, rw2: Rewrites, via2: Vias, t: TraceOf, c: Call)
    requires j.Valid() && CallableAt(j.p, t, c) && via1 == via[j.Key(t, c) := (t, c)]
    requires j.Key(t, c) in via2 && via2[j.Key(t, c)] == (t, c) && AllDone(j, via1, rw2, via2)
    requires forall d | d in j.p.RelevantIn(j.p.Body(j.p.Callee(c))) ::
               Rewired(j, rw2, via2, j.Asked(t, c), t + [At(c)], d)
    ensures AllDone(j, via, rw2, via2)
  {
    var key := j.Key(t, c);
    assert ViaOk(j, via2, key);
    forall k | k in via2 && k !in via ensures Done(j, rw2, via2, k) {
      if k != key { assert k !in via1; }
    }
  }

  lemma BelowParent(j: Job, rw: Rewrites, via: Vias, rw1: Rewrites, via1: Vias, rw2: Rewrites, via2: Vias,
                    parent: Version, v: Version, c: Call, key: VKey, ds: set<Call>)
    requires rw1.Keys == rw.Keys + {(parent, c)} && via1.Keys == via.Keys + {key}
    requires NewBelow(j, rw1, via1, rw2, via2, v, ds) && Lower(j, v.f, parent.f) && key.fun == v.f
    ensures NewBelow(j, rw, via, rw2, via2, parent, {c})
  {
  }

  /** After rewriting one call, the version it asks for is untouched if it was not come to. */
  lemma UntouchedBelow(j: Job, rw: Rewrites, via: Vias, t: TraceOf, c: Call, parent: Version)
    requires j.Valid() && Sound(j, rw, via) && CallableAt(j.p, t, c) && j.Key(t, c) !in via
    requires parent.f == j.p.FunOf(t[|t| - 1])
    ensures UntouchedIn(j, rw[(parent, c) := j.Asked(t, c)], j.Asked(t, c), j.p.RelevantIn(j.p.Body(j.p.Callee(c))))
  {
    var g := j.p.Callee(c);
    TraceRank(j.p, j.rank, j.home, j.sites, t, |t| - 1);
    forall d | d in j.p.RelevantIn(j.p.Body(g))
      ensures (j.Asked(t, c), d) !in rw && (Orig(g), d) !in rw
    {
      Untouched(j, rw, via, t, c, d);
    }
  }

  ghost predicate UntouchedIn(j: Job, rw: Rewrites, v: Version, calls: seq<Call>) {
    forall d | d in calls :: (v, d) !in rw && (Orig(v.f), d) !in rw
  }

  lemma NextUntouched(j: Job, rw0: Rewrites, via0: Vias, rw: Rewrites, via: Vias, v: Version, cs: set<Call>, d: Call)
    requires NewBelow(j, rw0, via0, rw, via, v, cs)
    requires (v, d) !in rw0 && (Orig(v.f), d) !in rw0 && d !in cs
    ensures (v, d) !in rw && (Orig(v.f), d) !in rw
  {
  }

  /** Rewriting one call to a version already come to is all there is to do. */
  lemma NothingNew(j: Job, rw: Rewrites, via: Vias, t: TraceOf, c: Call, parent: Version)
    requires CallableAt(j.p, t, c) && (parent, c) !in rw && j.Key(t, c) in via
    requires Sound(j, rw[(parent, c) := j.Asked(t, c)], via)
    ensures var rw1 := rw[(parent, c) := j.Asked(t, c)];
            Follows(j, rw, via, rw1, via, parent, {c}) && Rewired(j, rw1, via, parent, t, c)
  {
  }

  class CallRewriter {
    const j: Job
    var rw: Rewrites
    var processed: set<VKey>
    ghost var via: Vias

    constructor (j: Job)
      ensures this.j == j && rw == map[] && processed == {} && via == map[]
    {
      this.j, rw, processed, via := j, map[], {}, map[];
    }

    ghost predicate Ready()
      reads this
    {
      Sound(j, rw, via) && processed == via.Keys
    }

    /** The key a call asks for: every lookup on the way succeeds. */
    method AskedKey(t: TraceOf, c: Call, ghost parent: Version) returns (key: VKey)
      requires Known(j, t, c) && parent.f == j.p.FunOf(t[|t| - 1]) && (Orig(parent.f), c) !in rw
      ensures key == j.Key(t, c) && key in j.versions
    {
      // the call instruction is looked up in the original function, which still has its callee
      var called := Called(j.p, rw, Orig(j.home[c]), c);
      assert called == Orig(j.p.Callee(c));
      var args := j.sites[(t, c)];
      key := VKey(called.f, if called.f in j.profitable then args else Masked(args));
    }

    /** Rewrite one call; tell whether the version it asks for is new. */
    method RewriteCall(t: TraceOf, c: Call, parent: Version) returns (version: Version, isNew: bool)
      requires Known(j, t, c) && processed == via.Keys && parent.f == j.p.FunOf(t[|t| - 1])
      requires (parent, c) !in rw && (Orig(parent.f), c) !in rw
      modifies this
      ensures version == j.Asked(t, c) && rw == old(rw)[(parent, c) := version]
      ensures isNew <==> j.Key(t, c) !in old(via)
      ensures via == if isNew then old(via)[j.Key(t, c) := (t, c)] else old(via)
      ensures processed == via.Keys
    {
      var key := AskedKey(t, c, parent);
      version := j.versions[key];
      rw := rw[(parent, c) := version];
      isNew := key !in processed;
      if isNew {
        processed := processed + {key};
        via := via[key := (t, c)];
      }
    }

    /** Rewrite the call `c`, reached along `t`, in the version `parent` of the function it is
        in; go on below the version it asks for if that is new. */
    method UpdateCallsRec(t: TraceOf, c: Call, parent: Version)
      requires j.Valid() && Ready() && CallableAt(j.p, t, c) && parent.f == j.p.FunOf(t[|t| - 1])
      requires parent == Orig(j.p.kernel) || HasVia(j, via, parent)
      requires (parent, c) !in rw && (Orig(parent.f), c) !in rw
      modifies this
      ensures Ready() && Follows(j, old(rw), old(via), rw, via, parent, {c})
      ensures Rewired(j, rw, via, parent, t, c)
      decreases if j.p.Callee(c) in j.rank then j.rank[j.p.Callee(c)] else 0, 1
    {
      ghost var rw0, via0 := rw, via;
      LookupsSucceed(j, t, c);
      var version, isNew := RewriteCall(t, c, parent);
      AfterRewriting(j, rw0, via0, rw, via, t, c, parent);
      if !isNew {
        return;
      }
      ghost var ds := UpdateInner(t + [At(c)], version);
      RewriteBelow(j, rw0, via0, parent, t, c, rw, via, ds);
    }

    /** Rewrite all calls of a version. */
    method UpdateInner(t: TraceOf, v: Version) returns (ghost ds: set<Call>)
      requires j.Valid() && Ready() && Enterable(j, rw, via, v, t)
      modifies this
      ensures Ready() && Follows(j, old(rw), old(via), rw, via, v, ds)
      ensures forall d | d in j.p.Inner(t[|t| - 1]) :: Rewired(j, rw, via, v, t, d)
      decreases if v.f in j.rank then j.rank[v.f] else 0, 0
    {
      var calls := j.p.Inner(t[|t| - 1]);
      ghost var rw0, via0 := rw, via;
      for i := 0 to |calls|
        invariant processed == via.Keys && InnerDone(j, rw0, via0, rw, via, v, t, calls, i)
      {
        ghost var rw1, via1 := rw, via;
        NextCall(j, rw0, via0, rw, via, v, t, calls, i);
        UpdateCallsRec(t, calls[i], v);
        InnerStep(j, rw0, via0, rw1, via1, rw, via, v, t, calls, i);
      }
      ds := Elems(calls, |calls|);
    }

    /** Rewrite the whole program, from the kernel. */
    method UpdateCalls()
      requires j.Valid() && rw == map[] && processed == {} && via == map[]
      modifies this
      ensures Ready() && Complete(j, rw, via)
    {
      assert j.p.Trace([Kernel]);
      ghost var ds := UpdateInner([Kernel], Orig(j.p.kernel));
    }
  }

  /** What the whole rewriting leaves: the kernel's calls go where their own traces ask, and the
      calls of every version come to go where its first trace asks. */
  ghost predicate Complete(j: Job, rw: Rewrites, via: Vias) {
    Sound(j, rw, via) && (forall k | k in via :: Done(j, rw, via, k)) &&
    forall d | d in j.p.Inner(Kernel) :: Rewired(j, rw, via, Orig(j.p.kernel), [Kernel], d)
  }

  /** The calls of `v`, a version of the function reached by `t`, can be rewritten. */
  ghost predicate Enterable(j: Job, rw: Rewrites, via: Vias, v: Version, t: TraceOf) {
    j.p.Trace(t) && v.f == j.p.FunOf(t[|t| - 1]) && v.f in j.rank &&
    (v == Orig(j.p.kernel) || HasVia(j, via, v)) &&
    UntouchedIn(j, rw, v, j.p.Inner(t[|t| - 1]))
  }

  lemma BeforeInner(j: Job, rw: Rewrites, via: Vias, t: TraceOf, c: Call, parent: Version)
    requires j.Valid() && Sound(j, rw, via) && CallableAt(j.p, t, c) && j.Key(t, c) !in via
    requires parent.f == j.p.FunOf(t[|t| - 1])
    ensures j.p.Callee(c) in j.rank && j.Asked(t, c).f == j.p.Callee(c)
    ensures Enterable(j, rw[(parent, c) := j.Asked(t, c)], via[j.Key(t, c) := (t, c)], j.Asked(t, c), t + [At(c)])
  {
    UntouchedBelow(j, rw, via, t, c, parent);
    j.p.TraceExtends(t, c);
    TraceRank(j.p, j.rank, j.home, j.sites, t + [At(c)], |t|);
    assert ViaOk(j, via[j.Key(t, c) := (t, c)], j.Key(t, c));
  }

  /** The state after rewriting one call. */
  lemma AfterRewriting(j: Job, rw: Rewrites, via: Vias, rw1: Rewrites, via1: Vias, t: TraceOf, c: Call, parent: Version)
    requires j.Valid() && Known(j, t, c) && Sound(j, rw, via) && parent.f == j.p.FunOf(t[|t| - 1])
    requires (parent == Orig(j.p.kernel) || HasVia(j, via, parent)) && (parent, c) !in rw
    requires rw1 == rw[(parent, c) := j.Asked(t, c)]
    requires via1 == if j.Key(t, c) in via then via else via[j.Key(t, c) := (t, c)]
    ensures Sound(j, rw1, via1)
    ensures j.Key(t, c) in via ==> Follows(j, rw, via, rw1, via1, parent, {c}) && Rewired(j, rw1, via1, parent, t, c)
    ensures j.Key(t, c) !in via ==> j.p.Callee(c) in j.rank && j.Asked(t, c).f == j.p.Callee(c)
    ensures j.Key(t, c) !in via ==> Enterable(j, rw1, via1, j.Asked(t, c), t + [At(c)])
  {
    RewriteOne(j, rw, via, parent, t, c);
    if j.Key(t, c) in via {
      NothingNew(j, rw, via, t, c, parent);
    } else {
      BeforeInner(j, rw, via, t, c, parent);
    }
  }

  function Elems(calls: seq<Call>, n: nat): set<Call>
    requires n <= |calls|
  {
    if n == 0 then {} else Elems(calls, n - 1) + {calls[n - 1]}
  }

  lemma {:induction false} ElemsDistinct(calls: seq<Call>, n: nat, k: nat)
    requires Distinct(calls) && n <= k < |calls|
    ensures calls[k] !in Elems(calls, n)
    decreases n
  {
    if n > 0 { ElemsDistinct(calls, n - 1, k); }
  }

  ghost predicate InnerDone(j: Job, rw0: Rewrites, via0: Vias, rw: Rewrites, via: Vias, v: Version, t: TraceOf,
                            calls: seq<Call>, n: nat)
    requires n <= |calls|
  {
    Follows(j, rw0, via0, rw, via, v, Elems(calls, n)) && RewiredAll(j, rw, via, v, t, calls, n)
  }

  ghost predicate RewiredAll(j: Job, rw: Rewrites, via: Vias, v: Version, t: TraceOf, calls: seq<Call>, n: nat)
    requires n <= |calls|
  {
    forall k: nat :: k < n ==> Rewired(j, rw, via, v, t, calls[k])
  }

  lemma NextCall(j: Job, rw0: Rewrites, via0: Vias, rw: Rewrites, via: Vias, v: Version, t: TraceOf,
                 calls: seq<Call>, n: nat)
    requires j.Valid() && n < |calls| && InnerDone(j, rw0, via0, rw, via, v, t, calls, n)
    requires Enterable(j, rw0, via0, v, t) && calls == j.p.Inner(t[|t| - 1])
    ensures CallableAt(j.p, t, calls[n]) && (v, calls[n]) !in rw && (Orig(v.f), calls[n]) !in rw
    ensures v == Orig(j.p.kernel) || HasVia(j, via, v)
    ensures j.p.Callee(calls[n]) in j.rank && j.rank[j.p.Callee(calls[n])] < j.rank[v.f]
  {
    ElemsDistinct(calls, n, n);
    assert calls[n] in calls;
    NextUntouched(j, rw0, via0, rw, via, v, Elems(calls, n), calls[n]);
    if HasVia(j, via0, v) {
      var k :| ViaOk(j, via0, k) && j.versions[k] == v;
      assert ViaOk(j, via, k);
    }
  }

  lemma InnerStep(j: Job, rw0: Rewrites, via0: Vias, rw1: Rewrites, via1: Vias, rw2: Rewrites, via2: Vias,
                  v: Version, t: TraceOf, calls: seq<Call>, n: nat)
    requires n < |calls| && InnerDone(j, rw0, via0, rw1, via1, v, t, calls, n)
    requires Follows(j, rw1, via1, rw2, via2, v, {calls[n]}) && Rewired(j, rw2, via2, v, t, calls[n])
    ensures InnerDone(j, rw0, via0, rw2, via2, v, t, calls, n + 1)
  {
    FollowsTwice(j, rw0, via0, rw1, via1, rw2, via2, v, Elems(calls, n), {calls[n]});
    RewiredAllLast(j, rw1, via1, rw2, via2, v, t, calls, n);
  }

  lemma RewiredAllLast(j: Job, rw1: Rewrites, via1: Vias, rw2: Rewrites, via2: Vias, v: Version, t: TraceOf,
                       calls: seq<Call>, n: nat)
    requires n <= |calls| && Later(rw1, via1, rw2, via2) && RewiredAll(j, rw1, via1, v, t, calls, n)
    ensures RewiredAll(j, rw2, via2, v, t, calls, n)
  {
  }

  // ----- what the rewritten program does along a call trace -----

  /** The version the rewritten program is in after a call trace. */
  function After(j: Job, rw: Rewrites, t: TraceOf): Version
    requires t != []
    decreases t
  {
    if |t| == 1 || t[|t| - 1].Kernel? then Orig(j.p.kernel)
    else Called(j.p, rw, After(j, rw, t[..|t| - 1]), t[|t| - 1].call)
  }

  /** The key of the version a trace of at least one call asks for. */
  function TraceKey(j: Job, t: TraceOf): VKey
    requires |t| > 1 && t[|t| - 1].At?
  {
    j.Key(t[..|t| - 1], t[|t| - 1].call)
  }

  lemma SplitTrace(p: Program, t: TraceOf)
    requires p.Trace(t) && |t| > 1
    ensures t[|t| - 1].At? && CallableAt(p, t[..|t| - 1], t[|t| - 1].call)
    ensures t == t[..|t| - 1] + [At(t[|t| - 1].call)]
  {
    var s := t[..|t| - 1];
    assert p.CalledAt(t, |t| - 1);
    forall i: nat | 0 < i < |s| ensures p.CalledAt(s, i) {
      assert p.CalledAt(t, i);
    }
  }

  /** Along every call trace the rewritten program is in a version of the original function. */
  lemma {:induction false} TracesRunClones(j: Job, rw: Rewrites, via: Vias, t: TraceOf)
    requires j.Valid() && Complete(j, rw, via) && j.p.Trace(t)
    ensures After(j, rw, t).f == j.p.FunOf(t[|t| - 1])
    ensures |t| > 1 ==> HasVia(j, via, After(j, rw, t))
    decreases t
  {
    if |t| > 1 {
      SplitTrace(j.p, t);
      var s := t[..|t| - 1];
      TracesRunClones(j, rw, via, s);
      CallsAreRewired(j, rw, via, s, t[|t| - 1].call, After(j, rw, s));
    }
  }

  /** Every call of a version that some trace comes to was rewritten, to a version of its callee. */
  lemma CallsAreRewired(j: Job, rw: Rewrites, via: Vias, s: TraceOf, c: Call, v: Version)
    requires j.Valid() && Complete(j, rw, via) && CallableAt(j.p, s, c) && v.f == j.p.FunOf(s[|s| - 1])
    requires if |s| > 1 then HasVia(j, via, v) else v == Orig(j.p.kernel)
    ensures (v, c) in rw && HasVia(j, via, Called(j.p, rw, v, c)) && Called(j.p, rw, v, c).f == j.p.Callee(c)
  {
    if |s| == 1 {
      assert s == [Kernel];
      assert Rewired(j, rw, via, v, [Kernel], c);
    } else {
      VersionIsRewired(j, rw, via, v, c);
    }
    assert EntryOk(j, via, v, c, rw[(v, c)]);
  }

  lemma VersionIsRewired(j: Job, rw: Rewrites, via: Vias, v: Version, c: Call)
    requires (forall k | k in j.versions :: j.versions[k].f == k.fun) && (forall k | k in via :: Done(j, rw, via, k))
    requires HasVia(j, via, v) && c in j.p.RelevantIn(j.p.Body(v.f))
    ensures (v, c) in rw
  {
    var k :| ViaOk(j, via, k) && j.versions[k] == v;
    assert Done(j, rw, via, k);
    assert Rewired(j, rw, via, v, via[k].0 + [At(via[k].1)], c);
  }

  /** Two calls, reached along two traces, are to get one version: their descriptions agree, or the callee
      does not pay for versioning. */
  predicate AskAlike(j: Job, t: TraceOf, c: Call, s: TraceOf, d: Call) {
    (t, c) in j.sites && (s, d) in j.sites && j.p.Callee(c) == j.p.Callee(d) &&
    if j.p.Callee(c) in j.profitable then j.sites[(t, c)] == j.sites[(s, d)]
    else |j.sites[(t, c)]| == |j.sites[(s, d)]|
  }

  lemma AskAlikeIff(j: Job, t: TraceOf, c: Call, s: TraceOf, d: Call)
    requires (t, c) in j.sites && (s, d) in j.sites
    ensures AskAlike(j, t, c, s, d) <==> j.Key(t, c) == j.Key(s, d)
  {
    AsksForIff(j.p, j.sites, j.profitable, t, c, j.Key(t, c));
    AsksForIff(j.p, j.sites, j.profitable, s, d, j.Key(s, d));
    if AskAlike(j, t, c, s, d) {
      assert AsksFor(j.p, j.profitable, d, j.sites[(s, d)], j.Key(t, c));
      AsksForIff(j.p, j.sites, j.profitable, s, d, j.Key(t, c));
    }
  }

  /** Traces that are to end in one version, going on with one call, are to end in one version. */
  ghost predicate KeysDetermined(j: Job) {
    forall t: TraceOf, s: TraceOf, c: Call :: GoOnAlike(j, t, s, c) ==> AskAlike(j, t, c, s, c)
  }

  predicate GoOnAlike(j: Job, t: TraceOf, s: TraceOf, c: Call) {
    |t| > 1 && |s| > 1 && CallableAt(j.p, t, c) && CallableAt(j.p, s, c) &&
    t[|t| - 1].At? && s[|s| - 1].At? &&
    AskAlike(j, t[..|t| - 1], t[|t| - 1].call, s[..|s| - 1], s[|s| - 1].call)
  }

  lemma GoOnAlikeIff(j: Job, t: TraceOf, s: TraceOf, c: Call)
    requires j.Valid() && |t| > 1 && |s| > 1 && CallableAt(j.p, t, c) && CallableAt(j.p, s, c)
    ensures t[|t| - 1].At? && s[|s| - 1].At?
    ensures GoOnAlike(j, t, s, c) <==> TraceKey(j, t) == TraceKey(j, s)
    ensures AskAlike(j, t, c, s, c) <==> j.Key(t, c) == j.Key(s, c)
  {
    SplitTrace(j.p, t);
    SplitTrace(j.p, s);
    AskAlikeIff(j, t[..|t| - 1], t[|t| - 1].call, s[..|s| - 1], s[|s| - 1].call);
    AskAlikeIff(j, t, c, s, c);
  }

  /** Every call trace ends in the version it is to get. */
  ghost predicate Exact(j: Job, rw: Rewrites) {
    forall t: TraceOf, k: VKey :: TraceAsksFor(j, t, k) ==> k in j.versions && After(j, rw, t) == j.versions[k]
  }

  predicate TraceAsksFor(j: Job, t: TraceOf, k: VKey) {
    j.p.Trace(t) && |t| > 1 && t[|t| - 1].At? &&
    AsksAt(j.p, j.sites, j.profitable, t[..|t| - 1], t[|t| - 1].call, k)
  }

  lemma TraceAsksForIff(j: Job, t: TraceOf, k: VKey)
    requires j.Valid() && j.p.Trace(t) && |t| > 1
    ensures t[|t| - 1].At? && (TraceAsksFor(j, t, k) <==> k == TraceKey(j, t))
  {
    SplitTrace(j.p, t);
    AsksForIff(j.p, j.sites, j.profitable, t[..|t| - 1], t[|t| - 1].call, k);
  }

  /** A call of a version come to goes where the version's first trace asks. */
  lemma FirstTraceDecides(j: Job, rw: Rewrites, via: Vias, k: VKey, c: Call) returns (u: TraceOf)
    requires j.Valid() && Complete(j, rw, via) && k in via && c in j.p.RelevantIn(j.p.Body(k.fun))
    ensures |u| > 1 && u[|u| - 1].At? && CallableAt(j.p, u, c) && TraceKey(j, u) == k
    ensures Called(j.p, rw, j.versions[k], c) == j.Asked(u, c)
  {
    assert Done(j, rw, via, k);
    u := via[k].0 + [At(via[k].1)];
    assert Rewired(j, rw, via, j.versions[k], u, c);
    assert u[..|u| - 1] == via[k].0;
  }

  lemma {:induction false} DeterminedIsExact(j: Job, rw: Rewrites, via: Vias, t: TraceOf)
    requires j.Valid() && Complete(j, rw, via) && KeysDetermined(j) && j.p.Trace(t) && |t| > 1
    ensures t[|t| - 1].At? && TraceKey(j, t) in via && After(j, rw, t) == j.Asked(t[..|t| - 1], t[|t| - 1].call)
    decreases t
  {
    SplitTrace(j.p, t);
    var s, c := t[..|t| - 1], t[|t| - 1].call;
    if |s| == 1 {
      assert s == [Kernel];
      assert Rewired(j, rw, via, Orig(j.p.kernel), [Kernel], c);
    } else {
      DeterminedIsExact(j, rw, via, s);
      SplitTrace(j.p, s);
      CallDetermined(j, rw, via, s, c);
    }
  }

  lemma CallDetermined(j: Job, rw: Rewrites, via: Vias, s: TraceOf, c: Call)
    requires j.Valid() && Complete(j, rw, via) && KeysDetermined(j)
    requires |s| > 1 && s[|s| - 1].At? && CallableAt(j.p, s, c) && TraceKey(j, s) in via
    ensures j.Key(s, c) in via && Called(j.p, rw, j.versions[TraceKey(j, s)], c) == j.Asked(s, c)
  {
    var k := TraceKey(j, s);
    var u := FirstTraceDecides(j, rw, via, k, c);
    GoOnAlikeIff(j, u, s, c);
    assert Done(j, rw, via, k);
    assert Rewired(j, rw, via, j.versions[k], via[k].0 + [At(via[k].1)], c);
  }

  /** Although versions already come to are not visited again, every call trace reaches its own
      version exactly when traces to one version always go on to one version. */
  lemma ExactIff(j: Job, rw: Rewrites, via: Vias)
    requires j.Valid() && Complete(j, rw, via)
    ensures Exact(j, rw) <==> KeysDetermined(j)
  {
    if KeysDetermined(j) {
      forall t: TraceOf, k: VKey | TraceAsksFor(j, t, k)
        ensures k in j.versions && After(j, rw, t) == j.versions[k]
      {
        TraceAsksForIff(j, t, k);
        DeterminedIsExact(j, rw, via, t);
        assert ViaOk(j, via, TraceKey(j, t));
      }
    }
    if Exact(j, rw) {
      forall t: TraceOf, s: TraceOf, c: Call | GoOnAlike(j, t, s, c) ensures AskAlike(j, t, c, s, c) {
        GoOnAlikeIff(j, t, s, c);
        ExactStep(j, rw, t, c);
        ExactStep(j, rw, s, c);
      }
    }
  }

  lemma ExactStep(j: Job, rw: Rewrites, t: TraceOf, c: Call)
    requires j.Valid() && Exact(j, rw) && |t| > 1 && CallableAt(j.p, t, c) && t[|t| - 1].At?
    ensures TraceKey(j, t) in j.versions && j.Key(t, c) in j.versions
    ensures Called(j.p, rw, j.versions[TraceKey(j, t)], c) == j.versions[j.Key(t, c)]
  {
    var u := t + [At(c)];
    j.p.TraceExtends(t, c);
    assert u[..|u| - 1] == t;
    assert TraceKey(j, u) == j.Key(t, c);
    TraceAsksForIff(j, t, TraceKey(j, t));
    TraceAsksForIff(j, u, TraceKey(j, u));
  }

  /** Then two traces end in one version exactly when they are to: traces whose last calls are described
      differently are told apart if their callee pays for versioning. */
  lemma VersionsTellApart(j: Job, rw: Rewrites, via: Vias, t: TraceOf, s: TraceOf)
    requires j.Valid() && Complete(j, rw, via) && KeysDetermined(j)
    requires j.p.Trace(t) && |t| > 1 && j.p.Trace(s) && |s| > 1
    ensures t[|t| - 1].At? && s[|s| - 1].At?
    ensures After(j, rw, t) == After(j, rw, s) <==>
            AskAlike(j, t[..|t| - 1], t[|t| - 1].call, s[..|s| - 1], s[|s| - 1].call)
  {
    SplitTrace(j.p, t);
    SplitTrace(j.p, s);
    DeterminedIsExact(j, rw, via, t);
    DeterminedIsExact(j, rw, via, s);
    assert ViaOk(j, via, TraceKey(j, t)) && ViaOk(j, via, TraceKey(j, s));
    AskAlikeIff(j, t[..|t| - 1], t[|t| - 1].call, s[..|s| - 1], s[|s| - 1].call);
  }

  // ----- the whole phase -----

  /** The versions are those that the descriptions ask for: each of them, and no others. */
  ghost predicate VersionsAreAsked(p: Program, sites: Sites, profitable: set<Fun>, versions: map<VKey, Version>) {
    (forall t: TraceOf, c: Call, k: VKey :: AsksAt(p, sites, profitable, t, c, k) ==> k in versions) &&
    forall k | k in versions :: IsAsked(p, sites, profitable, k)
  }

  lemma AskedHaveVersions(p: Program, sites: Sites, profitable: set<Fun>, versions: map<VKey, Version>)
    requires VersionsFor(p, sites, profitable, versions)
    ensures forall t: TraceOf, c: Call, k: VKey :: AsksAt(p, sites, profitable, t, c, k) ==> k in versions
  {
    forall t: TraceOf, c: Call, k: VKey | AsksAt(p, sites, profitable, t, c, k) ensures k in versions {
      AsksForIff(p, sites, profitable, t, c, k);
    }
  }

  /** Describe the operands of every call of every trace by what the analyses found, make the versions
      those descriptions ask for, and rewrite every call. */
  method PerformFunctionVersioning(p: Program, rank: map<Fun, nat>, home: map<Call, Fun>, operands: map<Call, nat>,
                                   profitable: set<Fun>, exp: map<Operand, bool>, dims: map<Operand, seq<nat>>)
    returns (r: Option<CallRewriter>)
    requires WellCalled(p, rank, home)
    ensures r.Some? <==> exp.Keys == dims.Keys && AreOperands(p, operands, exp.Keys)
    ensures r.Some? ==> fresh(r.value) && r.value.j.p == p && r.value.j.profitable == profitable
    ensures r.Some? ==> forall t: TraceOf, c: Call :: (t, c) in r.value.j.sites <==> CallableAt(p, t, c)
    ensures r.Some? ==> AllDescribed(operands, exp, dims, exp.Keys, r.value.j.sites)
    ensures r.Some? ==> VersionsAreAsked(p, r.value.j.sites, profitable, r.value.j.versions)
    ensures r.Some? ==> CopiesHaveSiblings(r.value.j.versions)
    ensures r.Some? ==> r.value.j.Valid() && Complete(r.value.j, r.value.rw, r.value.via)
  {
    var blank := AllCallsites(p, rank, operands);
    var described := DescribeOperands(p, operands, exp, dims, blank);
    if described.None? {
      return None;
    }
    var sites := described.value;
    forall t: TraceOf, c: Call ensures (t, c) in sites <==> CallableAt(p, t, c) {
      assert (t, c) in sites.Keys <==> (t, c) in blank.Keys;
    }
    var worklist := set s | s in sites :: p.Callee(s.1);
    var versions := BuildVersions(p, sites, profitable, worklist);
    AskedHaveVersions(p, sites, profitable, versions);
    var rewriter := new CallRewriter(Job(p, sites, profitable, versions, rank, home));
    rewriter.UpdateCalls();
    r := Some(rewriter);
  }
}
