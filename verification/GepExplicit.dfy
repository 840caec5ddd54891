/** Making address computations explicit: one constant address computation that is an operand of an
    instruction becomes an instruction of its own.  Functions have blocks, jumps and phis.
 */
module GepExplicit {
  import opened Types
  import opened Wrappers
  import GepChain

  type InstId = nat
  type GlobalId = nat
  type Label = nat

  /** The indices of an address computation and the type they step into. */
  datatype Step = Step(ty: Ty, idxs: seq<int>)

  datatype Const = Global(g: GlobalId) | ConstGep(ptr: Const, step: Step) | Other(v: int)

  datatype Operand = Result(id: InstId) | Constant(c: Const)

  /** An address computation over its one operand, a phi with the block each operand comes from, the
      end of a block with the blocks it may go to, or anything else. */
  datatype Inst =
    | Gep(step: Step, ops: seq<Operand>)
    | Plain(ops: seq<Operand>)
    | Phi(from: seq<Label>, ops: seq<Operand>)
    | Term(to: seq<Label>, ops: seq<Operand>)

  datatype Func = Func(blocks: seq<seq<InstId>>, insts: map<InstId, Inst>)

  // ----- meaning -----

  /** Byte distance of a step. */
  function Distance(s: Step): int {
    if s.idxs != [] && GepChain.Walk(s.ty, s.idxs[1..]).Some? then GepChain.ChainAddress(s.ty, s.idxs) else 0
  }

  /** What an executed instruction was given and what it returned. */
  datatype Record = Record(args: seq<int>, result: int)

  /** The last execution of every instruction so far. */
  type Env = map<InstId, Record>

  /** Where the globals are, the memory at the start, what other instructions compute from their
      operands and memory, and where ends of blocks go. */
  datatype World = World(address: GlobalId -> int, store: int, compute: (InstId, seq<int>, int) -> (int, int),
                         choose: (InstId, seq<int>) -> nat)

  function ConstValue(w: World, c: Const): int {
    match c
    case Global(g) => w.address(g)
    case ConstGep(ptr, step) => ConstValue(w, ptr) + Distance(step)
    case Other(v) => v
  }

  function Value(w: World, env: Env, op: Operand): int {
    match op
    case Result(id) => if id in env then env[id].result else 0
    case Constant(c) => ConstValue(w, c)
  }

  function Values(w: World, env: Env, ops: seq<Operand>): (r: seq<int>)
    ensures |r| == |ops|
    ensures forall k {:trigger r[k]} :: 0 <= k < |r| ==> r[k] == Value(w, env, ops[k])
  {
    seq(|ops|, k requires 0 <= k < |ops| => Value(w, env, ops[k]))
  }

  /** The entry of a phi for the block control comes from. */
  function Entry(from: seq<Label>, l: Label): (k: nat)
    ensures k <= |from| && (k < |from| ==> from[k] == l)
  {
    if from == [] then 0 else if from[0] == l then 0 else 1 + Entry(from[1..], l)
  }

  /** The operand values of an instruction; phis see the values from before their block. */
  function Args(w: World, i: Inst, from: Label, entry: Env, env: Env): seq<int> {
    if i.Phi? then
      var k := Entry(i.from, from);
      if k < |i.from| && k < |i.ops| then [Value(w, entry, i.ops[k])] else []
    else Values(w, env, i.ops)
  }

  /** The result, and memory afterwards. */
  function Outcome(w: World, id: InstId, i: Inst, args: seq<int>, store: int): (int, int) {
    var first := if args == [] then 0 else args[0];
    match i
    case Gep(step, _) => (first + Distance(step), store)
    case Plain(_) => w.compute(id, args, store)
    case Phi(_, _) => (first, store)
    case Term(_, _) => (0, store)
  }

  datatype State = State(env: Env, store: int)

  function ExecInst(w: World, f: Func, id: InstId, from: Label, entry: Env, st: State): State {
    if id !in f.insts then st
    else
      var args := Args(w, f.insts[id], from, entry, st.env);
      var out := Outcome(w, id, f.insts[id], args, st.store);
      State(st.env[id := Record(args, out.0)], out.1)
  }

  /** The first `n` instructions of a block that is entered in state `st`. */
  function ExecBlock(w: World, f: Func, order: seq<InstId>, from: Label, st: State, n: nat): State
    requires n <= |order|
  {
    if n == 0 then st else ExecInst(w, f, order[n - 1], from, st.env, ExecBlock(w, f, order, from, st, n - 1))
  }

  function NextLabel(w: World, f: Func, order: seq<InstId>, env: Env): Option<Label> {
    if order == [] then None
    else
      var id := order[|order| - 1];
      if id !in f.insts || !f.insts[id].Term? || id !in env then None
      else
        var c := w.choose(id, env[id].args);
        if c < |f.insts[id].to| then Some(f.insts[id].to[c]) else None
  }

  /** Where control is, which block it comes from, and what was computed. */
  datatype Config = Config(at: Option<Label>, from: Label, st: State)

  function RunBlock(w: World, f: Func, c: Config): Config {
    if c.at.None? || c.at.value >= |f.blocks| then c
    else
      var order := f.blocks[c.at.value];
      var st := ExecBlock(w, f, order, c.from, c.st, |order|);
      Config(NextLabel(w, f, order, st.env), c.at.value, st)
  }

  /** After `n` blocks. */
  function Run(w: World, f: Func, n: nat): Config {
    if n == 0 then Config(Some(0), |f.blocks|, State(map[], w.store)) else RunBlock(w, f, Run(w, f, n - 1))
  }

  // ----- well-formed functions -----

  predicate At(blocks: seq<seq<InstId>>, id: InstId, l: nat, p: nat) {
    l < |blocks| && p < |blocks[l]| && blocks[l][p] == id
  }

  ghost predicate Somewhere(f: Func, id: InstId) {
    exists l: nat, p: nat :: At(f.blocks, id, l, p)
  }

  /** Blocks list exactly the instructions of the function, each in one place. */
  ghost predicate Listed(f: Func, next: InstId) {
    (forall l: nat, p: nat :: l < |f.blocks| && p < |f.blocks[l]| ==> f.blocks[l][p] in f.insts) &&
    (forall id | id in f.insts :: id < next) &&
    (forall id {:trigger Somewhere(f, id)} | id in f.insts :: Somewhere(f, id)) &&
    forall id, l: nat, p: nat, m: nat, q: nat {:trigger At(f.blocks, id, l, p), At(f.blocks, id, m, q)} ::
      At(f.blocks, id, l, p) && At(f.blocks, id, m, q) ==> l == m && p == q
  }

  /** A block ends where control leaves it, and its phis are in front. */
  predicate ShapedBlock(f: Func, order: seq<InstId>)
    requires forall p: nat :: p < |order| ==> order[p] in f.insts
  {
    order != [] && (forall p: nat :: p < |order| ==> (f.insts[order[p]].Term? <==> p == |order| - 1)) &&
    forall p: nat, q: nat :: p < q < |order| && f.insts[order[q]].Phi? ==> f.insts[order[p]].Phi?
  }

  /** The operand only mentions existing instructions. */
  predicate Older(op: Operand, next: InstId) {
    op.Result? ==> op.id < next
  }

  predicate SoundInst(f: Func, i: Inst, next: InstId) {
    (forall k: nat :: k < |i.ops| ==> Older(i.ops[k], next)) &&
    (i.Phi? ==> |i.from| == |i.ops| && forall k: nat :: k < |i.from| ==> i.from[k] < |f.blocks|)
  }

  ghost predicate WellFormed(f: Func, next: InstId) {
    Listed(f, next) &&
    (forall l: nat {:trigger ShapedBlock(f, f.blocks[l])} :: l < |f.blocks| ==> ShapedBlock(f, f.blocks[l])) &&
    forall id {:trigger SoundInst(f, f.insts[id], next)} | id in f.insts :: SoundInst(f, f.insts[id], next)
  }

  // ----- one conversion -----

  /** Operand `k` of instruction `id` is a constant address computation. */
  predicate Convertible(f: Func, id: InstId, k: nat) {
    id in f.insts && k < |f.insts[id].ops| && f.insts[id].ops[k].Constant? && f.insts[id].ops[k].c.ConstGep?
  }

  /** New instructions go in front of the user; for an operand of a phi, in front of the end of the
      block that operand comes from. */
  predicate InsertionPoint(f: Func, id: InstId, k: nat, l: nat, p: nat)
    requires Convertible(f, id, k)
  {
    var i := f.insts[id];
    if i.Phi? then k < |i.from| && l == i.from[k] && l < |f.blocks| && p + 1 == |f.blocks[l]|
    else At(f.blocks, id, l, p)
  }

  function WithOp(i: Inst, k: nat, op: Operand): Inst
    requires k < |i.ops|
  {
    i.(ops := i.ops[k := op])
  }

  function Inserted(order: seq<InstId>, p: nat, x: InstId): (r: seq<InstId>)
    requires p <= |order|
    ensures |r| == |order| + 1 && r[p] == x
    ensures forall q: nat {:trigger r[q]} :: q < p ==> r[q] == order[q]
    ensures forall q: nat {:trigger r[q]} :: p < q < |r| ==> r[q] == order[q - 1]
  {
    order[..p] + [x] + order[p..]
  }

  /** Insert the address computation as instruction `next`, and use its result in place of the
      constant. */
  function Convert(f: Func, next: InstId, id: InstId, k: nat, l: nat, p: nat): Func
    requires Convertible(f, id, k) && l < |f.blocks| && p <= |f.blocks[l]|
  {
    var c := f.insts[id].ops[k].c;
    Func(f.blocks[l := Inserted(f.blocks[l], p, next)],
         f.insts[next := Gep(c.step, [Constant(c.ptr)])][id := WithOp(f.insts[id], k, Result(next))])
  }

  /** A conversion in progress: the function, the use that is converted, and where. */
  datatype Job = Job(f: Func, next: InstId, id: InstId, k: nat, l: nat, p: nat) {
    ghost predicate Valid() {
      WellFormed(f, next) && Convertible(f, id, k) && InsertionPoint(f, id, k, l, p)
    }

    predicate Ready() {
      Convertible(f, id, k) && l < |f.blocks| && p < |f.blocks[l]|
    }

    function Out(): Func
      requires Ready()
    {
      Convert(f, next, id, k, l, p)
    }

    /** The address that is computed. */
    function Address(w: World): int
      requires Ready()
    {
      ConstValue(w, f.insts[id].ops[k].c)
    }
  }

  lemma ValidIsReady(j: Job)
    requires j.Valid()
    ensures j.Ready() && j.next !in j.f.insts
  {
    if j.f.insts[j.id].Phi? { assert ShapedBlock(j.f, j.f.blocks[j.l]); }
  }

  /** The new instruction is right in front of its user, or of the end of the block a phi's operand comes
      from; the other instructions stay in order. */
  lemma InsertedInFront(j: Job)
    requires j.Valid()
    ensures j.Ready() && j.Out().blocks[j.l][j.p] == j.next && |j.Out().blocks[j.l]| == |j.f.blocks[j.l]| + 1
    ensures if j.f.insts[j.id].Phi? then j.l == j.f.insts[j.id].from[j.k] && j.p + 2 == |j.Out().blocks[j.l]|
            else j.Out().blocks[j.l][j.p + 1] == j.id
    ensures j.Out().blocks[j.l][..j.p] + j.Out().blocks[j.l][j.p + 1..] == j.f.blocks[j.l]
    ensures forall l: nat :: l < |j.f.blocks| && l != j.l ==> j.Out().blocks[l] == j.f.blocks[l]
  {
    ValidIsReady(j);
  }

  // ----- the same values along every run -----

  /** Two result tables agree on the instructions of a function. */
  ghost predicate Agree(a: Env, b: Env, next: InstId) {
    forall id | id < next :: (id in a <==> id in b) && (id in a ==> a[id] == b[id])
  }

  /** The inserted instruction was executed. */
  predicate Computed(j: Job, w: World, env: Env)
    requires j.Ready()
  {
    j.next in env && env[j.next].result == j.Address(w)
  }

  /** States after the same steps of both functions. */
  ghost predicate Same(j: Job, st: State, out: State) {
    Agree(st.env, out.env, j.next) && st.store == out.store
  }

  lemma ValuesAgree(w: World, a: Env, b: Env, next: InstId, ops: seq<Operand>)
    requires Agree(a, b, next) && forall k: nat :: k < |ops| ==> Older(ops[k], next)
    ensures Values(w, a, ops) == Values(w, b, ops)
  {
    forall k: nat | k < |ops| ensures Value(w, a, ops[k]) == Value(w, b, ops[k]) {}
    assert forall k :: 0 <= k < |ops| ==> Values(w, a, ops)[k] == Values(w, b, ops)[k];
  }

  /** The converted instruction is given the same values if the inserted one was executed before. */
  lemma ArgsAgree(j: Job, w: World, i: InstId, from: Label, entry: Env, entry': Env, env: Env, env': Env)
    requires j.Ready() && i in j.f.insts && i < j.next && SoundInst(j.f, j.f.insts[i], j.next)
    requires Agree(entry, entry', j.next) && Agree(env, env', j.next)
    requires i == j.id && !j.f.insts[i].Phi? ==> Computed(j, w, env')
    requires i == j.id && j.f.insts[i].Phi? && j.k < |j.f.insts[i].from| && from == j.f.insts[i].from[j.k] ==>
               Computed(j, w, entry')
    ensures Args(w, j.f.insts[i], from, entry, env) == Args(w, j.Out().insts[i], from, entry', env')
  {
    var inst := j.f.insts[i];
    if inst.Phi? {
      var e := Entry(inst.from, from);
      if e < |inst.from| && e < |inst.ops| { assert Older(inst.ops[e], j.next); }
    } else {
      ValuesAgree(w, env, env', j.next, inst.ops);
      if i == j.id { ReplacedValues(j, w, env'); }
    }
  }

  lemma ReplacedValues(j: Job, w: World, env: Env)
    requires j.Ready() && Computed(j, w, env)
    ensures Values(w, env, j.f.insts[j.id].ops) == Values(w, env, j.f.insts[j.id].ops[j.k := Result(j.next)])
  {
    var a, b := j.f.insts[j.id].ops, j.f.insts[j.id].ops[j.k := Result(j.next)];
    forall m | 0 <= m < |a| ensures Values(w, env, a)[m] == Values(w, env, b)[m] {
      if m == j.k { assert Value(w, env, b[m]) == Value(w, env, a[m]); }
    }
  }

  /** One old instruction, executed in both functions. */
  lemma InstAgrees(j: Job, w: World, i: InstId, from: Label, entry: Env, entry': Env, st: State, st': State)
    requires j.Ready() && i in j.f.insts && i < j.next && SoundInst(j.f, j.f.insts[i], j.next)
    requires Agree(entry, entry', j.next) && Same(j, st, st')
    requires i == j.id && !j.f.insts[i].Phi? ==> Computed(j, w, st'.env)
    requires i == j.id && j.f.insts[i].Phi? && j.k < |j.f.insts[i].from| && from == j.f.insts[i].from[j.k] ==>
               Computed(j, w, entry')
    ensures Same(j, ExecInst(w, j.f, i, from, entry, st), ExecInst(w, j.Out(), i, from, entry', st'))
    ensures Computed(j, w, st'.env) ==> Computed(j, w, ExecInst(w, j.Out(), i, from, entry', st').env)
  {
    ArgsAgree(j, w, i, from, entry, entry', st.env, st'.env);
    assert j.Out().insts[i] == if i == j.id then WithOp(j.f.insts[i], j.k, Result(j.next)) else j.f.insts[i];
  }

  /** The inserted instruction. */
  lemma InsertedComputes(j: Job, w: World, from: Label, entry: Env, st: State, st': State)
    requires j.Ready() && j.next != j.id && Same(j, st, st')
    ensures Same(j, st, ExecInst(w, j.Out(), j.next, from, entry, st'))
    ensures Computed(j, w, ExecInst(w, j.Out(), j.next, from, entry, st').env)
  {
    var c := j.f.insts[j.id].ops[j.k].c;
    assert j.Out().insts[j.next] == Gep(c.step, [Constant(c.ptr)]);
    assert Values(w, st'.env, [Constant(c.ptr)])[0] == ConstValue(w, c.ptr);
  }

  /** What both runs know when they enter a block: if the block they come from is the one with the
      inserted instruction, that instruction was executed. */
  ghost predicate EnterSame(j: Job, w: World, from: Label, st: State, st': State)
    requires j.Ready()
  {
    Same(j, st, st') && (from == j.l ==> Computed(j, w, st'.env))
  }

  /** What the simulation needs of the instruction at one place: the user, when it is no phi, is at the
      insertion point and nowhere else. */
  ghost predicate PlaceOk(j: Job, l: nat, q: nat)
    requires j.Ready() && l < |j.f.blocks| && q < |j.f.blocks[l]|
  {
    var i := j.f.blocks[l][q];
    i in j.f.insts && i < j.next && SoundInst(j.f, j.f.insts[i], j.next) &&
    (i == j.id && !j.f.insts[i].Phi? ==> l == j.l && q == j.p)
  }

  /** A valid conversion, as the simulation sees it. */
  ghost predicate Simulates(j: Job) {
    j.Ready() && j.next != j.id &&
    (forall l: nat, q: nat {:trigger PlaceOk(j, l, q)} :: l < |j.f.blocks| && q < |j.f.blocks[l]| ==> PlaceOk(j, l, q)) &&
    (j.f.insts[j.id].Phi? ==> j.k < |j.f.insts[j.id].from| && j.f.insts[j.id].from[j.k] == j.l)
  }

  lemma IdsOf(f: Func, next: InstId, l: nat, p: nat)
    requires WellFormed(f, next) && l < |f.blocks| && p < |f.blocks[l]|
    ensures f.blocks[l][p] in f.insts && f.blocks[l][p] < next && SoundInst(f, f.insts[f.blocks[l][p]], next)
  {
  }

  lemma ValidSimulates(j: Job)
    requires j.Valid()
    ensures Simulates(j)
  {
    ValidIsReady(j);
    forall l: nat, q: nat | l < |j.f.blocks| && q < |j.f.blocks[l]| ensures PlaceOk(j, l, q) {
      IdsOf(j.f, j.next, l, q);
      if j.f.blocks[l][q] == j.id && !j.f.insts[j.id].Phi? {
        assert At(j.f.blocks, j.id, l, q) && At(j.f.blocks, j.id, j.l, j.p);
      }
    }
  }

  /** One instruction of a block in both functions. */
  lemma OldStep(j: Job, w: World, l: nat, q: nat, from: Label, st: State, st': State, a: State, b: State)
    requires Simulates(j) && l < |j.f.blocks| && q < |j.f.blocks[l]|
    requires EnterSame(j, w, from, st, st') && Same(j, a, b) && (l == j.l && q == j.p ==> Computed(j, w, b.env))
    ensures var i := j.f.blocks[l][q];
            Same(j, ExecInst(w, j.f, i, from, st.env, a), ExecInst(w, j.Out(), i, from, st'.env, b)) &&
            (Computed(j, w, b.env) ==> Computed(j, w, ExecInst(w, j.Out(), i, from, st'.env, b).env))
  {
    var i := j.f.blocks[l][q];
    assert PlaceOk(j, l, q);
    InstAgrees(j, w, i, from, st.env, st'.env, a, b);
  }

  /** In every other block, and in the block of the insertion point up to there, both functions execute
      the same instructions. */
  lemma {:induction false} BlockBefore(j: Job, w: World, l: nat, from: Label, st: State, st': State, n: nat)
    requires Simulates(j) && l < |j.f.blocks| && n <= |j.f.blocks[l]| && (l == j.l ==> n <= j.p)
    requires EnterSame(j, w, from, st, st')
    ensures n <= |j.Out().blocks[l]|
    ensures Same(j, ExecBlock(w, j.f, j.f.blocks[l], from, st, n), ExecBlock(w, j.Out(), j.Out().blocks[l], from, st', n))
    decreases n
  {
    if n > 0 {
      BlockBefore(j, w, l, from, st, st', n - 1);
      assert j.Out().blocks[l][n - 1] == j.f.blocks[l][n - 1];
      OldStep(j, w, l, n - 1, from, st, st', ExecBlock(w, j.f, j.f.blocks[l], from, st, n - 1),
              ExecBlock(w, j.Out(), j.Out().blocks[l], from, st', n - 1));
    }
  }

  /** Behind the insertion point the rewritten function is one instruction ahead, and that one was
      executed. */
  lemma {:induction false} BlockAfter(j: Job, w: World, from: Label, st: State, st': State, n: nat)
    requires Simulates(j) && j.p <= n <= |j.f.blocks[j.l]|
    requires EnterSame(j, w, from, st, st')
    ensures n + 1 <= |j.Out().blocks[j.l]|
    ensures var a := ExecBlock(w, j.f, j.f.blocks[j.l], from, st, n);
            var b := ExecBlock(w, j.Out(), j.Out().blocks[j.l], from, st', n + 1);
            Same(j, a, b) && Computed(j, w, b.env)
    decreases n
  {
    var order, order' := j.f.blocks[j.l], j.Out().blocks[j.l];
    if n == j.p {
      BlockBefore(j, w, j.l, from, st, st', n);
      assert order'[n] == j.next;
      InsertedComputes(j, w, from, st'.env, ExecBlock(w, j.f, order, from, st, n), ExecBlock(w, j.Out(), order', from, st', n));
    } else {
      BlockAfter(j, w, from, st, st', n - 1);
      assert order'[n] == order[n - 1];
      OldStep(j, w, j.l, n - 1, from, st, st', ExecBlock(w, j.f, order, from, st, n - 1),
              ExecBlock(w, j.Out(), order', from, st', n));
    }
  }

  /** The states after a whole block. */
  function After(w: World, f: Func, l: nat, from: Label, st: State): State
    requires l < |f.blocks|
  {
    ExecBlock(w, f, f.blocks[l], from, st, |f.blocks[l]|)
  }

  lemma BlockSame(j: Job, w: World, l: nat, from: Label, st: State, st': State)
    requires Simulates(j) && l < |j.f.blocks| && EnterSame(j, w, from, st, st')
    ensures EnterSame(j, w, l, After(w, j.f, l, from, st), After(w, j.Out(), l, from, st'))
  {
    if l == j.l {
      BlockAfter(j, w, from, st, st', |j.f.blocks[l]|);
      assert |j.Out().blocks[l]| == |j.f.blocks[l]| + 1;
    } else {
      BlockBefore(j, w, l, from, st, st', |j.f.blocks[l]|);
      assert j.Out().blocks[l] == j.f.blocks[l];
    }
  }

  predicate LastIsTerm(j: Job, l: nat)
    requires l < |j.f.blocks|
  {
    var order := j.f.blocks[l];
    order != [] && order[|order| - 1] in j.f.insts && j.f.insts[order[|order| - 1]].Term?
  }

  lemma LeavesSame(j: Job, w: World, l: nat, a: State, b: State)
    requires Simulates(j) && l < |j.f.blocks| && Same(j, a, b) && LastIsTerm(j, l)
    ensures NextLabel(w, j.f, j.f.blocks[l], a.env) == NextLabel(w, j.Out(), j.Out().blocks[l], b.env)
  {
    var order, order' := j.f.blocks[l], j.Out().blocks[l];
    assert PlaceOk(j, l, |order| - 1);
    var id := order[|order| - 1];
    assert order'[|order'| - 1] == id;
    assert j.Out().insts[id] == if id == j.id then WithOp(j.f.insts[id], j.k, Result(j.next)) else j.f.insts[id];
  }

  /** Two runs at the same place, with the same memory and the same values given to and returned by
      every old instruction. */
  ghost predicate SameRun(a: Config, b: Config, next: InstId) {
    a.at == b.at && a.from == b.from && a.st.store == b.st.store && Agree(a.st.env, b.st.env, next)
  }

  lemma {:induction false} RunSame(j: Job, w: World, n: nat)
    requires j.Valid() && j.Ready()
    ensures SameRun(Run(w, j.f, n), Run(w, j.Out(), n), j.next)
    ensures EnterSame(j, w, Run(w, j.f, n).from, Run(w, j.f, n).st, Run(w, j.Out(), n).st)
    decreases n
  {
    if n > 0 {
      RunSame(j, w, n - 1);
      var c := Run(w, j.f, n - 1);
      if c.at.Some? && c.at.value < |j.f.blocks| {
        var d := Run(w, j.Out(), n - 1);
        ValidSimulates(j);
        assert ShapedBlock(j.f, j.f.blocks[c.at.value]);
        BlockSame(j, w, c.at.value, c.from, c.st, d.st);
        LeavesSame(j, w, c.at.value, After(w, j.f, c.at.value, c.from, c.st), After(w, j.Out(), c.at.value, d.from, d.st));
      }
    }
  }

  /** Converting one use changes nothing along any run, for any addresses of globals and any meaning of
      the other instructions. */
  lemma ConvertPreserves(j: Job, w: World, n: nat)
    requires j.Valid()
    ensures j.Ready() && SameRun(Run(w, j.f, n), Run(w, j.Out(), n), j.next)
  {
    ValidIsReady(j);
    RunSame(j, w, n);
  }

  // ----- the rewritten function is well-formed -----

  lemma OutAt(j: Job, id: InstId, l: nat, p: nat)
    requires j.Valid() && j.Ready()
    ensures At(j.Out().blocks, id, l, p) <==>
            if l != j.l then At(j.f.blocks, id, l, p)
            else if p < j.p then At(j.f.blocks, id, l, p)
            else if p == j.p then id == j.next
            else At(j.f.blocks, id, l, p - 1)
  {
  }

  lemma OutListed(j: Job)
    requires j.Valid() && j.Ready()
    ensures Listed(j.Out(), j.next + 1)
  {
    var out := j.Out();
    forall l: nat, p: nat | l < |out.blocks| && p < |out.blocks[l]| ensures out.blocks[l][p] in out.insts {
      OutAt(j, out.blocks[l][p], l, p);
    }
    forall id | id in out.insts ensures id < j.next + 1 && Somewhere(out, id) {
      if id == j.next {
        OutAt(j, id, j.l, j.p);
      } else {
        assert Somewhere(j.f, id);
        var l: nat, p: nat :| At(j.f.blocks, id, l, p);
        OutAt(j, id, l, p);
        OutAt(j, id, l, p + 1);
      }
    }
    forall id, l: nat, p: nat, m: nat, q: nat | At(out.blocks, id, l, p) && At(out.blocks, id, m, q)
      ensures l == m && p == q
    {
      ValidIsReady(j);
      OutAt(j, id, l, p);
      OutAt(j, id, m, q);
    }
  }

  lemma KindKept(j: Job, id: InstId)
    requires j.Valid() && j.Ready() && id in j.f.insts
    ensures id in j.Out().insts
    ensures j.Out().insts[id].Phi? <==> j.f.insts[id].Phi?
    ensures j.Out().insts[id].Term? <==> j.f.insts[id].Term?
  {
    ValidIsReady(j);
  }

  /** Everything from the insertion point on is no phi. */
  lemma NoPhiBehind(j: Job, q: nat)
    requires j.Valid() && j.Ready() && j.p <= q < |j.f.blocks[j.l]|
    ensures j.f.blocks[j.l][q] in j.f.insts && !j.f.insts[j.f.blocks[j.l][q]].Phi?
  {
    var order := j.f.blocks[j.l];
    assert ShapedBlock(j.f, order);
    IdsOf(j.f, j.next, j.l, q);
    IdsOf(j.f, j.next, j.l, j.p);
  }

  lemma OutShaped(j: Job, l: nat)
    requires j.Valid() && j.Ready() && l < |j.f.blocks|
    requires forall p: nat :: p < |j.Out().blocks[l]| ==> j.Out().blocks[l][p] in j.Out().insts
    ensures ShapedBlock(j.Out(), j.Out().blocks[l])
  {
    ValidIsReady(j);
    var order, order' := j.f.blocks[l], j.Out().blocks[l];
    assert ShapedBlock(j.f, order);
    forall p: nat | p < |order| ensures order[p] in j.f.insts {}
    forall id | id in j.f.insts
      ensures id in j.Out().insts && (j.Out().insts[id].Phi? <==> j.f.insts[id].Phi?)
      ensures j.Out().insts[id].Term? <==> j.f.insts[id].Term?
    {
      KindKept(j, id);
    }
    if l == j.l {
      forall q: nat | j.p <= q < |order| ensures !j.f.insts[order[q]].Phi? { NoPhiBehind(j, q); }
      InsertedShaped(j, order, order');
    }
  }

  lemma InsertedShaped(j: Job, order: seq<InstId>, order': seq<InstId>)
    requires j.Ready() && order == j.f.blocks[j.l] && order' == Inserted(order, j.p, j.next) && j.next != j.id
    requires forall p: nat :: p < |order| ==> order[p] in j.f.insts && order[p] in j.Out().insts
    requires forall p: nat :: p < |order'| ==> order'[p] in j.Out().insts
    requires ShapedBlock(j.f, order) && forall q: nat :: j.p <= q < |order| ==> !j.f.insts[order[q]].Phi?
    requires forall p: nat :: p < |order| ==>
               (j.Out().insts[order[p]].Phi? <==> j.f.insts[order[p]].Phi?) &&
               (j.Out().insts[order[p]].Term? <==> j.f.insts[order[p]].Term?)
    ensures ShapedBlock(j.Out(), order')
  {
    var out := j.Out();
    assert out.insts[j.next].Gep?;
    forall p: nat | p < |order'| ensures out.insts[order'[p]].Term? <==> p == |order'| - 1 {
      if p < j.p { assert order'[p] == order[p]; } else if p > j.p { assert order'[p] == order[p - 1]; }
    }
    forall q: nat | j.p <= q < |order'| ensures !out.insts[order'[q]].Phi? {
      if q > j.p { assert order'[q] == order[q - 1]; }
    }
    forall p: nat, q: nat | p < q < |order'| && out.insts[order'[q]].Phi? ensures out.insts[order'[p]].Phi? {
      assert q < j.p;
      assert order'[p] == order[p] && order'[q] == order[q];
    }
  }

  lemma OutSound(j: Job, id: InstId)
    requires j.Valid() && j.Ready() && id in j.Out().insts
    ensures SoundInst(j.Out(), j.Out().insts[id], j.next + 1)
  {
    ValidIsReady(j);
    if id != j.next { assert SoundInst(j.f, j.f.insts[id], j.next); }
  }

  lemma ConvertWellFormed(j: Job)
    requires j.Valid()
    ensures j.Ready() && WellFormed(j.Out(), j.next + 1)
  {
    ValidIsReady(j);
    OutListed(j);
    forall l: nat | l < |j.Out().blocks| ensures ShapedBlock(j.Out(), j.Out().blocks[l]) { OutShaped(j, l); }
    forall id | id in j.Out().insts ensures SoundInst(j.Out(), j.Out().insts[id], j.next + 1) { OutSound(j, id); }
  }
}
