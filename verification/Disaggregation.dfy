/** Loads and stores of a program before and after its aggregates are taken apart.

    Before: an object is one value, a pointer is a byte address into it.  After: each scalar
    of an expanded object is a variable of its own.  A program is a control-flow graph; the
    pass rewrites loads and stores one by one and keeps everything else.
 */
module Disaggregation {
  import opened Types
  import opened Values
  import opened Layout
  import opened Expansion
  import opened Indices
  import opened GepChain
  import opened LeafIndex
  import opened SelectChain
  import opened Wrappers
  import opened LeafBudget

  type Label = nat

  datatype Exit = Jump(to: Label) | Branch(cond: Reg, yes: Label, no: Label) | Return

  datatype Block<I> = Block(body: seq<I>, exit: Exit)

  /** `Compute` is any instruction that touches registers only. */
  datatype Instr = Load(dst: Reg, ptr: Ptr) | Store(src: Reg, ptr: Ptr) | Compute(dst: Reg, f: Env -> int)

  datatype NewInstr =
    | Kept(instr: Instr)
    | CellLoad(dst: Reg, cell: Id)
    | CellStore(src: Reg, cell: Id)
    | WrappedLoad(dst: Reg, offset: seq<Term>, wrapper: Wrapper)
    | WrappedStore(src: Reg, offset: seq<Term>, wrapper: Wrapper)

  type Objects = map<Id, Ty>
  type Memory = map<Id, Value>

  // ----- the program before -----

  datatype State = State(env: Env, mem: Memory)

  ghost predicate WellTyped(tys: Objects, mem: Memory) {
    forall r | r in tys :: r in mem && HasType(mem[r], tys[r])
  }

  /** The pointer addresses the scalar at `p` of its object, with the scalar's type. */
  ghost predicate PointsTo(tys: Objects, ptr: Ptr, env: Env, p: Path) {
    Pointee(tys, ptr).Some? && ptr.Root() in tys &&
    var t := tys[ptr.Root()];
    ScalarPath(t, p) && SubTy(t, p) == Pointee(tys, ptr).value && PathOff(t, p) == Address(tys, ptr, env)
  }

  ghost function Target(tys: Objects, ptr: Ptr, env: Env): (r: Option<Path>)
    ensures r.Some? ==> PointsTo(tys, ptr, env, r.value)
  {
    if exists p :: PointsTo(tys, ptr, env, p) then
      var p :| PointsTo(tys, ptr, env, p);
      Some(p)
    else None
  }

  ghost function LoadFrom(tys: Objects, mem: Memory, ptr: Ptr, env: Env): Option<int>
    requires WellTyped(tys, mem)
  {
    var p := Target(tys, ptr, env);
    if p.Some? then Some(Read(mem[ptr.Root()], tys[ptr.Root()], p.value)) else None
  }

  ghost function StoreTo(tys: Objects, mem: Memory, ptr: Ptr, env: Env, x: int): (r: Option<Memory>)
    requires WellTyped(tys, mem)
    ensures r.Some? ==> WellTyped(tys, r.value)
  {
    var p, o := Target(tys, ptr, env), ptr.Root();
    if p.Some? then Some(mem[o := Write(mem[o], tys[o], p.value, x)]) else None
  }

  ghost function Exec(tys: Objects, i: Instr, st: State): (r: Option<State>)
    requires WellTyped(tys, st.mem)
    ensures r.Some? ==> WellTyped(tys, r.value.mem)
  {
    match i
    case Load(dst, ptr) =>
      var x := LoadFrom(tys, st.mem, ptr, st.env);
      if x.Some? then Some(st.(env := st.env[dst := x.value])) else None
    case Store(src, ptr) =>
      var mem := StoreTo(tys, st.mem, ptr, st.env, Get(st.env, src));
      if mem.Some? then Some(st.(mem := mem.value)) else None
    case Compute(dst, f) => Some(st.(env := st.env[dst := f(st.env)]))
  }

  // ----- the program after -----

  datatype NewState = NewState(env: Env, cells: map<Id, int>, mem: Memory)

  ghost function NewExec(tys: Objects, i: NewInstr, st: NewState): (r: Option<NewState>)
    requires WellTyped(tys, st.mem)
    ensures r.Some? ==> WellTyped(tys, r.value.mem)
  {
    match i
    case Kept(instr) =>
      var r := Exec(tys, instr, State(st.env, st.mem));
      if r.Some? then Some(NewState(r.value.env, st.cells, r.value.mem)) else None
    case CellLoad(dst, cell) =>
      if cell in st.cells then Some(st.(env := st.env[dst := st.cells[cell]])) else None
    case CellStore(src, cell) =>
      if cell in st.cells then Some(st.(cells := st.cells[cell := Get(st.env, src)])) else None
    case WrappedLoad(dst, offset, wrapper) =>
      var cell := Selected(wrapper, SumTerms(0, offset, st.env));
      if cell.Some? && cell.value in st.cells
      then Some(st.(env := st.env[dst := st.cells[cell.value]]))
      else None
    case WrappedStore(src, offset, wrapper) =>
      var cell := Selected(wrapper, SumTerms(0, offset, st.env));
      if cell.None? then Some(st)
      else if cell.value in st.cells then Some(st.(cells := st.cells[cell.value := Get(st.env, src)]))
      else None
  }

  // ----- the rewriting of one pointer operand -----

  datatype Place = Untouched | Cell(cell: Id) | Dynamic(offset: seq<Term>, wrapper: Wrapper)

  predicate AllConst(chain: seq<Index>) {
    forall i: nat :: i < |chain| ==> chain[i].Const?
  }

  /** The table is an expansion of the objects. */
  ghost predicate Ready(tys: Objects, h: Table) {
    WellExpanded(h) && forall r | r in tys :: IsRoot(h, r) && h.vars[r].ty == tys[r]
  }

  /** The pass does not stop on this pointer. */
  ghost predicate Rewritable(tys: Objects, h: Table, ptr: Ptr)
    requires Pointee(tys, ptr).Some? && ptr.Root() in tys
  {
    var chain := Flatten(ptr)[1..];
    ptr.Root() in h.kids ==>
      if AllConst(chain) then GetElementAtIdx(h, ptr.Root(), Evals(chain, map[])).Ok?
      else IdxSum(tys[ptr.Root()], chain).Ok?
  }

  /** What the pass makes of a pointer operand. */
  ghost predicate Placed(tys: Objects, h: Table, ptr: Ptr, place: Place)
    requires Ready(tys, h)
  {
    Pointee(tys, ptr).Some? && ptr.Root() in tys &&
    var r, chain := ptr.Root(), Flatten(ptr)[1..];
    match place
    case Untouched => r !in h.kids
    case Cell(cell) => r in h.kids && AllConst(chain) && GetElementAtIdx(h, r, Evals(chain, map[])) == Ok(cell)
    case Dynamic(offset, wrapper) =>
      r in h.kids && !AllConst(chain) && IdxSum(tys[r], chain) == Ok(offset) &&
      WrapperFor(h, r, wrapper, Pointee(tys, ptr).value, chain)
  }

  method ProcessSinglePointer(tys: Objects, h: Table, ptr: Ptr, shouldBeConstant: bool) returns (res: Result<Place>)
    requires Ready(tys, h) && Pointee(tys, ptr).Some? && ptr.Root() in tys
    ensures res.Ok? ==> Placed(tys, h, ptr, res.value)
    ensures res.Ok? <==> (Rewritable(tys, h, ptr) &&
                          (shouldBeConstant && ptr.Root() in h.kids ==> AllConst(Flatten(ptr)[1..])))
  {
    RootTyped(tys, ptr);
    var base, idxChain := ComputeBaseAndIdxs(ptr);
    if base !in h.kids {
      return Ok(Untouched);
    }
    idxChain := idxChain[1..];
    var isConstant := true;
    for i := 0 to |idxChain|
      invariant isConstant <==> AllConst(idxChain[..i])
    {
      if !idxChain[i].Const? {
        isConstant := false;
        break;
      }
    }
    assert idxChain[..|idxChain|] == idxChain;
    if isConstant {
      var cell := GetElementAtIdx(h, base, Evals(idxChain, map[]));
      return if cell.Ok? then Ok(Cell(cell.value)) else Err(cell.error);
    }
    if shouldBeConstant {
      return Err(ConstantAccessNeeded);
    }
    var place := DynamicPlace(h, base, Pointee(tys, ptr).value, idxChain);
    return if place.Ok? then Ok(Dynamic(place.value.0, place.value.1)) else Err(place.error);
  }

  /** The leaf number and the comparison chain of a dynamic access. */
  method DynamicPlace(h: Table, base: Id, accessTy: Ty, chain: seq<Index>) returns (res: Result<(seq<Term>, Wrapper)>)
    requires Expanded(h, base)
    ensures res.Ok? <==> IdxSum(h.vars[base].ty, chain).Ok?
    ensures res.Ok? ==> IdxSum(h.vars[base].ty, chain) == Ok(res.value.0) &&
                        WrapperFor(h, base, res.value.1, accessTy, chain)
  {
    var ty := h.vars[base].ty;
    var expanded := ExpandTypes(h, base, [], []);
    PrefixedNothing(Leaves(ty));
    assert expanded == Leaves(ty);
    LeavesResolve(h, base);
    var offset := BuildIdxSum(ty, chain);
    if offset.Err? {
      return Err(offset.error);
    }
    var wrapper := BuildWrapper(h, base, expanded, accessTy, chain);
    return Ok((offset.value, wrapper.value));
  }

  lemma PrefixedNothing(entries: seq<LeafEntry>)
    ensures Prefixed([], entries) == entries
  {
    forall k | 0 <= k < |entries| ensures [] + entries[k].1 == entries[k].1 {}
  }

  /** Every listed leaf has its variable, so building the comparisons cannot fail. */
  lemma LeavesResolve(h: Table, base: Id)
    requires WellExpanded(h) && base in h.vars && Complete(h, base)
    ensures forall k :: 0 <= k < |Leaves(h.vars[base].ty)| ==>
              GetElementAtIdx(h, base, Leaves(h.vars[base].ty)[k].1).Ok?
  {
    forall k | 0 <= k < |Leaves(h.vars[base].ty)|
      ensures GetElementAtIdx(h, base, Leaves(h.vars[base].ty)[k].1).Ok?
    {
      LeavesAreLeaves(h.vars[base].ty, k);
      ConstantChainResolves(h, base, Leaves(h.vars[base].ty)[k].1);
    }
  }

  // ----- simulation -----

  /** The scalars of every expanded object are kept in the variables that replace them. */
  ghost predicate Related(tys: Objects, h: Table, st: State, nst: NewState)
    requires Ready(tys, h)
  {
    WellTyped(tys, st.mem) && WellTyped(tys, nst.mem) && nst.env == st.env &&
    forall r | r in tys ::
      if r in h.kids then
        forall p :: ScalarPath(tys[r], p) ==>
          Resolve(h, r, p) in nst.cells && nst.cells[Resolve(h, r, p)] == Read(st.mem[r], tys[r], p)
      else nst.mem[r] == st.mem[r]
  }

  /** An access of C: its coordinates are a path to a scalar, and on the way a pointer is moved only where
      the layout allows it and by indices that fit. */
  ghost predicate InBounds(tys: Objects, ptr: Ptr, env: Env, p: Path) {
    Pointee(tys, ptr).Some? && Pointee(tys, ptr).value.Scalar? && ptr.Root() in tys &&
    MovesFit(ptr, env) && RunsAllowed(tys, ptr, env) &&
    Spelled(ptr, env) == [0] + p && ScalarPath(tys[ptr.Root()], p)
  }

  /** The flattened chain of such an access spells the same path. */
  lemma InBoundsFlat(tys: Objects, ptr: Ptr, env: Env, p: Path)
    requires InBounds(tys, ptr, env, p)
    ensures RunsExact(tys, ptr, env)
    ensures Flatten(ptr)[0].Eval(env) == 0 && Evals(Flatten(ptr), env)[1..] == p && Evals(Flatten(ptr)[1..], env) == p
  {
    RunsExactIff(tys, ptr, env);
    FlattenSpells(ptr, env);
    assert Evals(Flatten(ptr), env) == [0] + p;
    assert Evals(Flatten(ptr), env)[0] == 0;
    assert Evals(Flatten(ptr), env)[1..] == p;
  }

  lemma InBoundsPointsTo(tys: Objects, ptr: Ptr, env: Env, p: Path)
    requires InBounds(tys, ptr, env, p)
    ensures PointsTo(tys, ptr, env, p)
  {
    InBoundsFlat(tys, ptr, env, p);
    FlattenIff(tys, ptr, env);
    WalkOfPath(tys[ptr.Root()], p);
  }

  /** A dynamic access needs its leaf number: no empty aggregate may be listed before the scalar, and
      the leaves must be few enough to be numbered in 32 bits.  Constant accesses need neither. */
  ghost predicate Numbered(tys: Objects, ptr: Ptr, p: Path)
    requires ptr.Root() in tys && ValidPath(tys[ptr.Root()], p)
  {
    AllConst(Flatten(ptr)[1..]) ||
    (|Leaves(tys[ptr.Root()])| < Half(W32) && NoEmptyBefore(tys[ptr.Root()], p))
  }

  ghost predicate TameAccess(tys: Objects, ptr: Ptr, env: Env, p: Path) {
    InBounds(tys, ptr, env, p) && Numbered(tys, ptr, p)
  }

  /** An in-bounds access addresses the scalar at the path its flattened chain spells. */
  lemma InBoundsTarget(tys: Objects, ptr: Ptr, env: Env, p: Path)
    requires InBounds(tys, ptr, env, p)
    ensures Target(tys, ptr, env) == Some(p)
    ensures Reaches(tys[ptr.Root()], Flatten(ptr)[1..], env, p)
    ensures SubTy(tys[ptr.Root()], p) == Pointee(tys, ptr).value
  {
    var t := tys[ptr.Root()];
    InBoundsFlat(tys, ptr, env, p);
    InBoundsPointsTo(tys, ptr, env, p);
    PathOffInjective(t, p, Target(tys, ptr, env).value);
  }

  /** The variable a rewritten pointer names at run time. */
  function Named(place: Place, env: Env): Option<Id>
    requires !place.Untouched?
  {
    match place
    case Cell(cell) => Some(cell)
    case Dynamic(offset, wrapper) => Selected(wrapper, SumTerms(0, offset, env))
  }

  lemma ConstEvals(chain: seq<Index>, env: Env)
    requires AllConst(chain)
    ensures Evals(chain, env) == Evals(chain, map[])
  {
  }

  /** A rewritten pointer names the variable of the accessed scalar. */
  lemma PlaceIsExact(tys: Objects, h: Table, ptr: Ptr, place: Place, env: Env, p: Path)
    requires Ready(tys, h) && Placed(tys, h, ptr, place) && !place.Untouched?
    requires TameAccess(tys, ptr, env, p)
    ensures Named(place, env) == Some(Resolve(h, ptr.Root(), p))
  {
    var r, chain := ptr.Root(), Flatten(ptr)[1..];
    InBoundsTarget(tys, ptr, env, p);
    match place
    case Cell(cell) =>
      ConstEvals(chain, env);
      ConstantChainResolves(h, r, p);
    case Dynamic(offset, wrapper) =>
      ChainIsExactIff(h, r, wrapper, chain, env, p, offset);
  }

  predicate IsAccess(i: Instr) {
    i.Load? || i.Store?
  }

  /** The access with its pointer operand replaced. */
  function Replace(i: Instr, place: Place): NewInstr
    requires IsAccess(i)
  {
    match place
    case Untouched => Kept(i)
    case Cell(cell) => if i.Load? then CellLoad(i.dst, cell) else CellStore(i.src, cell)
    case Dynamic(offset, wrapper) =>
      if i.Load? then WrappedLoad(i.dst, offset, wrapper) else WrappedStore(i.src, offset, wrapper)
  }

  ghost predicate Rewritten(tys: Objects, h: Table, i: Instr, n: NewInstr)
    requires Ready(tys, h)
  {
    if IsAccess(i) then exists place :: Placed(tys, h, i.ptr, place) && n == Replace(i, place)
    else n == Kept(i)
  }

  /** The run-time condition on one instruction: accesses to expanded objects are in bounds, and
      dynamic ones are numbered. */
  ghost predicate Tame(tys: Objects, h: Table, i: Instr, env: Env) {
    IsAccess(i) && i.ptr.Root() in h.kids ==> exists p :: TameAccess(tys, i.ptr, env, p)
  }

  /** A store through a rewritten pointer changes the variable of the accessed scalar and no
      other scalar of any object. */
  lemma StoreKeepsRelation(tys: Objects, h: Table, st: State, nst: NewState, r: Id, p: Path, x: int)
    requires Ready(tys, h) && Related(tys, h, st, nst) && r in tys && r in h.kids && ScalarPath(tys[r], p)
    ensures Related(tys, h, st.(mem := st.mem[r := Write(st.mem[r], tys[r], p, x)]),
                    nst.(cells := nst.cells[Resolve(h, r, p) := x]))
  {
    var mem, cells := st.mem[r := Write(st.mem[r], tys[r], p, x)], nst.cells[Resolve(h, r, p) := x];
    forall s, q | s in tys && s in h.kids && ScalarPath(tys[s], q)
      ensures Resolve(h, s, q) in cells && cells[Resolve(h, s, q)] == Read(mem[s], tys[s], q)
    {
      if s == r {
        ReadAfterWrite(st.mem[r], tys[r], p, x, q);
      }
      if Resolve(h, s, q) == Resolve(h, r, p) {
        ResolveInjective(h, s, q, r, p);
      }
    }
  }

  /** An access to an object that was not expanded behaves as before. */
  lemma KeptAccessSimulates(tys: Objects, h: Table, i: Instr, st: State, nst: NewState)
    requires Ready(tys, h) && Related(tys, h, st, nst) && IsAccess(i) && i.ptr.Root() !in h.kids
    requires Exec(tys, i, st).Some?
    ensures NewExec(tys, Kept(i), nst).Some?
    ensures Related(tys, h, Exec(tys, i, st).value, NewExec(tys, Kept(i), nst).value)
  {
    assert Target(tys, i.ptr, st.env).Some?;
  }

  lemma NamedAccess(tys: Objects, i: Instr, place: Place, nst: NewState, cell: Id)
    requires IsAccess(i) && !place.Untouched? && WellTyped(tys, nst.mem)
    requires Named(place, nst.env) == Some(cell) && cell in nst.cells
    ensures NewExec(tys, Replace(i, place), nst) ==
            Some(if i.Load? then nst.(env := nst.env[i.dst := nst.cells[cell]])
                 else nst.(cells := nst.cells[cell := Get(nst.env, i.src)]))
  {
  }

  lemma TargetedAccess(tys: Objects, i: Instr, st: State, p: Path)
    requires IsAccess(i) && WellTyped(tys, st.mem) && Target(tys, i.ptr, st.env) == Some(p)
    ensures var r := i.ptr.Root();
            Exec(tys, i, st) ==
            Some(if i.Load? then st.(env := st.env[i.dst := Read(st.mem[r], tys[r], p)])
                 else st.(mem := st.mem[r := Write(st.mem[r], tys[r], p, Get(st.env, i.src))]))
  {
  }

  /** An access through a rewritten pointer. */
  lemma PlacedAccessSimulates(tys: Objects, h: Table, i: Instr, place: Place, st: State, nst: NewState, p: Path)
    requires Ready(tys, h) && Related(tys, h, st, nst) && IsAccess(i) && TameAccess(tys, i.ptr, st.env, p)
    requires Placed(tys, h, i.ptr, place) && !place.Untouched?
    ensures Exec(tys, i, st).Some? && NewExec(tys, Replace(i, place), nst).Some?
    ensures Related(tys, h, Exec(tys, i, st).value, NewExec(tys, Replace(i, place), nst).value)
  {
    var r := i.ptr.Root();
    InBoundsTarget(tys, i.ptr, st.env, p);
    PlaceIsExact(tys, h, i.ptr, place, st.env, p);
    TargetedAccess(tys, i, st, p);
    NamedAccess(tys, i, place, nst, Resolve(h, r, p));
    if i.Store? {
      StoreKeepsRelation(tys, h, st, nst, r, p, Get(st.env, i.src));
    }
  }

  /** One instruction. */
  lemma StepSimulates(tys: Objects, h: Table, i: Instr, n: NewInstr, st: State, nst: NewState)
    requires Ready(tys, h) && Rewritten(tys, h, i, n) && Related(tys, h, st, nst) && Tame(tys, h, i, st.env)
    requires Exec(tys, i, st).Some?
    ensures NewExec(tys, n, nst).Some?
    ensures Related(tys, h, Exec(tys, i, st).value, NewExec(tys, n, nst).value)
  {
    if IsAccess(i) {
      var place :| Placed(tys, h, i.ptr, place) && n == Replace(i, place);
      if place.Untouched? {
        KeptAccessSimulates(tys, h, i, st, nst);
      } else {
        var p :| TameAccess(tys, i.ptr, st.env, p);
        PlacedAccessSimulates(tys, h, i, place, st, nst, p);
      }
    }
  }

  // ----- whole programs and whole runs -----

  /** Accesses go through pointers into objects of the program. */
  ghost predicate TypedBlock(tys: Objects, b: Block<Instr>) {
    forall k: nat :: k < |b.body| && IsAccess(b.body[k]) ==>
      Pointee(tys, b.body[k].ptr).Some? && b.body[k].ptr.Root() in tys
  }

  ghost predicate TypedProgram(tys: Objects, prog: seq<Block<Instr>>) {
    forall l: nat :: l < |prog| ==> TypedBlock(tys, prog[l])
  }

  /** The pass does not stop on any access. */
  ghost predicate RewritableBlock(tys: Objects, h: Table, b: Block<Instr>)
    requires TypedBlock(tys, b)
  {
    forall k: nat :: k < |b.body| && IsAccess(b.body[k]) ==> Rewritable(tys, h, b.body[k].ptr)
  }

  ghost predicate RewritableProgram(tys: Objects, h: Table, prog: seq<Block<Instr>>)
    requires TypedProgram(tys, prog)
  {
    forall l: nat :: l < |prog| ==> RewritableBlock(tys, h, prog[l])
  }

  method ExpandBlock(tys: Objects, h: Table, b: Block<Instr>) returns (res: Result<Block<NewInstr>>)
    requires Ready(tys, h) && TypedBlock(tys, b)
    ensures res.Ok? <==> RewritableBlock(tys, h, b)
    ensures res.Ok? ==> BlockRewritten(tys, h, b, res.value)
  {
    var body := [];
    for k := 0 to |b.body|
      invariant |body| == k && forall m: nat :: m < k ==> Rewritten(tys, h, b.body[m], body[m])
      invariant forall m: nat :: m < k && IsAccess(b.body[m]) ==> Rewritable(tys, h, b.body[m].ptr)
    {
      var i := b.body[k];
      var n := Kept(i);
      if IsAccess(i) {
        var place := ProcessSinglePointer(tys, h, i.ptr, false);
        if place.Err? {
          return Err(place.error);
        }
        n := Replace(i, place.value);
      }
      body := body + [n];
    }
    return Ok(Block(body, b.exit));
  }

  /** The pass over all instructions of all blocks. */
  method ExpandPtrs(tys: Objects, h: Table, prog: seq<Block<Instr>>) returns (res: Result<seq<Block<NewInstr>>>)
    requires Ready(tys, h) && TypedProgram(tys, prog)
    ensures res.Ok? <==> RewritableProgram(tys, h, prog)
    ensures res.Ok? ==> ProgramRewritten(tys, h, prog, res.value)
  {
    var out := [];
    for l := 0 to |prog|
      invariant |out| == l && forall m: nat :: m < l ==> BlockRewritten(tys, h, prog[m], out[m])
      invariant forall m: nat :: m < l ==> RewritableBlock(tys, h, prog[m])
    {
      var block := ExpandBlock(tys, h, prog[l]);
      if block.Err? {
        return Err(block.error);
      }
      out := out + [block.value];
    }
    return Ok(out);
  }

  ghost predicate BlockRewritten(tys: Objects, h: Table, b: Block<Instr>, n: Block<NewInstr>)
    requires Ready(tys, h)
  {
    n.exit == b.exit && |n.body| == |b.body| &&
    forall k: nat :: k < |b.body| ==> Rewritten(tys, h, b.body[k], n.body[k])
  }

  ghost predicate ProgramRewritten(tys: Objects, h: Table, prog: seq<Block<Instr>>, out: seq<Block<NewInstr>>)
    requires Ready(tys, h)
  {
    |out| == |prog| && forall l: nat :: l < |prog| ==> BlockRewritten(tys, h, prog[l], out[l])
  }

  /** Where control goes after a block: a label, or nowhere. */
  function Next(exit: Exit, env: Env): Option<Label> {
    match exit
    case Jump(to) => Some(to)
    case Branch(cond, yes, no) => Some(if Get(env, cond) != 0 then yes else no)
    case Return => None
  }

  ghost function ExecBody(tys: Objects, body: seq<Instr>, st: State): (r: Option<State>)
    requires WellTyped(tys, st.mem)
    ensures r.Some? ==> WellTyped(tys, r.value.mem)
    decreases body
  {
    if body == [] then Some(st)
    else
      var r := Exec(tys, body[0], st);
      if r.Some? then ExecBody(tys, body[1..], r.value) else None
  }

  ghost function NewExecBody(tys: Objects, body: seq<NewInstr>, st: NewState): (r: Option<NewState>)
    requires WellTyped(tys, st.mem)
    ensures r.Some? ==> WellTyped(tys, r.value.mem)
    decreases body
  {
    if body == [] then Some(st)
    else
      var r := NewExec(tys, body[0], st);
      if r.Some? then NewExecBody(tys, body[1..], r.value) else None
  }

  /** The state after `n` blocks from label `at`, and where control is then; undefined
      behaviour and wild jumps have no outcome. */
  ghost function Run(tys: Objects, prog: seq<Block<Instr>>, at: Option<Label>, st: State, n: nat)
    : (r: Option<(Option<Label>, State)>)
    requires WellTyped(tys, st.mem)
    ensures r.Some? ==> WellTyped(tys, r.value.1.mem)
    decreases n
  {
    if n == 0 || at.None? then Some((at, st))
    else if at.value >= |prog| then None
    else
      var r := ExecBody(tys, prog[at.value].body, st);
      if r.None? then None else Run(tys, prog, Next(prog[at.value].exit, r.value.env), r.value, n - 1)
  }

  ghost function NewRun(tys: Objects, prog: seq<Block<NewInstr>>, at: Option<Label>, st: NewState, n: nat)
    : (r: Option<(Option<Label>, NewState)>)
    requires WellTyped(tys, st.mem)
    ensures r.Some? ==> WellTyped(tys, r.value.1.mem)
    decreases n
  {
    if n == 0 || at.None? then Some((at, st))
    else if at.value >= |prog| then None
    else
      var r := NewExecBody(tys, prog[at.value].body, st);
      if r.None? then None else NewRun(tys, prog, Next(prog[at.value].exit, r.value.env), r.value, n - 1)
  }

  ghost predicate TameBody(tys: Objects, h: Table, body: seq<Instr>, st: State)
    requires WellTyped(tys, st.mem)
    decreases body
  {
    body == [] ||
    (Tame(tys, h, body[0], st.env) &&
     var r := Exec(tys, body[0], st);
     r.Some? ==> TameBody(tys, h, body[1..], r.value))
  }

  /** Every access to an expanded object in the first `n` blocks of the run is in bounds. */
  ghost predicate TameRun(tys: Objects, h: Table, prog: seq<Block<Instr>>, at: Option<Label>, st: State, n: nat)
    requires WellTyped(tys, st.mem)
    decreases n
  {
    n > 0 && at.Some? && at.value < |prog| ==>
      TameBody(tys, h, prog[at.value].body, st) &&
      var r := ExecBody(tys, prog[at.value].body, st);
      r.Some? ==> TameRun(tys, h, prog, Next(prog[at.value].exit, r.value.env), r.value, n - 1)
  }

  lemma {:induction false} BodySimulates(tys: Objects, h: Table, body: seq<Instr>, out: seq<NewInstr>,
                                         st: State, nst: NewState)
    requires Ready(tys, h) && Related(tys, h, st, nst) && TameBody(tys, h, body, st)
    requires |out| == |body| && forall k: nat :: k < |body| ==> Rewritten(tys, h, body[k], out[k])
    requires ExecBody(tys, body, st).Some?
    ensures NewExecBody(tys, out, nst).Some?
    ensures Related(tys, h, ExecBody(tys, body, st).value, NewExecBody(tys, out, nst).value)
    decreases body
  {
    if body != [] {
      StepSimulates(tys, h, body[0], out[0], st, nst);
      BodySimulates(tys, h, body[1..], out[1..], Exec(tys, body[0], st).value, NewExec(tys, out[0], nst).value);
    }
  }

  /** Disaggregation preserves meaning: after any number of blocks the rewritten program is at
      the same place, with the same registers and with every scalar of every object intact. */
  lemma {:induction false} RunSimulates(tys: Objects, h: Table, prog: seq<Block<Instr>>, out: seq<Block<NewInstr>>,
                                        at: Option<Label>, st: State, nst: NewState, n: nat)
    requires Ready(tys, h) && ProgramRewritten(tys, h, prog, out)
    requires Related(tys, h, st, nst) && TameRun(tys, h, prog, at, st, n)
    requires Run(tys, prog, at, st, n).Some?
    ensures NewRun(tys, out, at, nst, n).Some?
    ensures var (l, end), (newL, newEnd) := Run(tys, prog, at, st, n).value, NewRun(tys, out, at, nst, n).value;
            newL == l && Related(tys, h, end, newEnd)
    decreases n
  {
    if n > 0 && at.Some? {
      var b, c := prog[at.value], out[at.value];
      assert BlockRewritten(tys, h, b, c);
      BodySimulates(tys, h, b.body, c.body, st, nst);
      RunSimulates(tys, h, prog, out, Next(b.exit, ExecBody(tys, b.body, st).value.env),
                   ExecBody(tys, b.body, st).value, NewExecBody(tys, c.body, nst).value, n - 1);
    }
  }

  /** Accepted objects: each once, and an object of the program. */
  predicate Accepted(objs: Objects, accepted: seq<Id>) {
    (forall i: nat :: i < |accepted| ==> accepted[i] in objs) &&
    forall i: nat, j: nat :: i < j < |accepted| ==> accepted[i] != accepted[j]
  }

  /** The objects a program has: its allocas and its globals, numbered below `bound`. */
  ghost predicate Program(allocas: Objects, globals: Objects, values: Memory, bound: Id) {
    allocas.Keys !! globals.Keys && (forall r | r in allocas :: r < bound) && (forall r | r in globals :: r < bound) &&
    WellTyped(globals, values)
  }

  /** Exactly the accepted objects are expanded, into variables numbered from `bound` to `next`. */
  ghost predicate ExpansionOf(objs: Objects, accepted: seq<Id>, h: Table, bound: Id, next: Id) {
    Ready(objs, h) && (forall r | r in objs :: r in h.kids <==> r in accepted && objs[r].Arity() > 0) &&
    forall x | x in h.vars :: (x in objs || bound <= x) && x < next && h.vars[x].root in objs
  }

  lemma ExpandedExactly(objs: Objects, accepted: seq<Id>, before: Table, h: Table)
    requires Accepted(objs, accepted) && WellExpanded(h)
    requires before.vars.Keys == objs.Keys && forall r | r in objs :: IsRoot(before, r) && before.vars[r].ty == objs[r]
    requires forall r | r in before.vars :: r in h.vars && h.vars[r] == before.vars[r]
    requires forall i: nat :: i < |accepted| ==> Complete(h, accepted[i])
    requires forall r | r in before.vars && r !in accepted :: r !in h.kids
    ensures Ready(objs, h) && forall r | r in objs :: r in h.kids <==> r in accepted && objs[r].Arity() > 0
  {
    forall r | r in objs ensures r in h.kids <==> r in accepted && objs[r].Arity() > 0 {
      if r in accepted {
        var i :| 0 <= i < |accepted| && accepted[i] == r;
        assert Complete(h, accepted[i]);
      }
    }
  }

  method ExpandSomeAllocas(allocas: Objects, bound: Id, accepted: seq<Id>) returns (h: Table, next: Id)
    requires Accepted(allocas, accepted) && forall r | r in allocas :: r < bound
    ensures bound <= next && ExpansionOf(allocas, accepted, h, bound, next)
  {
    var expander := new AllocaExpander(allocas, bound);
    ghost var before := expander.T();
    expander.ExpandAllocas(accepted);
    h, next := expander.T(), expander.next;
    ExpandedExactly(allocas, accepted, before, h);
  }

  method ExpandSomeGlobals(globals: Objects, values: Memory, bound: Id, accepted: seq<Id>)
    returns (h: Table, init: Memory, ghost roots: map<Id, Var>, next: Id)
    requires Accepted(globals, accepted) && WellTyped(globals, values) && forall r | r in globals :: r < bound
    ensures ExpansionOf(globals, accepted, h, bound, next)
    ensures roots.Keys == globals.Keys && forall r | r in globals :: roots[r].ty == globals[r]
    ensures forall x | x in h.vars && h.vars[x].root in accepted :: Stands(h, init, roots, values, x)
  {
    var expander := new GlobalExpander(globals, values, bound);
    roots := expander.vars;
    ghost var before := expander.T();
    expander.ExpandGlobals(accepted);
    h, init, next := expander.T(), expander.init, expander.next;
    ExpandedExactly(globals, accepted, before, h);
  }

  /** Variables of allocas and of globals are numbered apart. */
  lemma NumberedApart(allocas: Objects, globals: Objects, someAllocas: seq<Id>, someGlobals: seq<Id>,
                      h: Table, g: Table, bound: Id, mid: Id, next: Id)
    requires allocas.Keys !! globals.Keys && (forall r | r in globals :: r < bound) && bound <= mid
    requires ExpansionOf(allocas, someAllocas, h, bound, mid) && ExpansionOf(globals, someGlobals, g, mid, next)
    ensures h.vars.Keys !! g.vars.Keys
  {
  }

  lemma BothReady(allocas: Objects, globals: Objects, someAllocas: seq<Id>, someGlobals: seq<Id>, h: Table, g: Table)
    requires Ready(allocas, h) && Ready(globals, g) && h.vars.Keys !! g.vars.Keys
    requires Accepted(allocas, someAllocas) && Accepted(globals, someGlobals)
    requires forall r | r in allocas :: r in h.kids <==> r in someAllocas && allocas[r].Arity() > 0
    requires forall r | r in globals :: r in g.kids <==> r in someGlobals && globals[r].Arity() > 0
    ensures Ready(allocas + globals, Both(h, g))
    ensures forall r | r in allocas + globals ::
      r in Both(h, g).kids <==> (r in someAllocas || r in someGlobals) && (allocas + globals)[r].Arity() > 0
  {
    BothExpanded(h, g);
    KidsHaveVars(h);
    KidsHaveVars(g);
  }

  lemma StandsInBoth(h: Table, g: Table, init: Memory, roots: map<Id, Var>, values: Memory, x: Id)
    requires Stands(g, init, roots, values, x)
    ensures Stands(Both(h, g), init, roots, values, x)
  {
  }

  /** Expand the allocas and the globals the analysis accepted. */
  method ExpandObjects(allocas: Objects, globals: Objects, values: Memory, bound: Id,
                       someAllocas: seq<Id>, someGlobals: seq<Id>)
    returns (h: Table, init: Memory, ghost roots: map<Id, Var>)
    requires Program(allocas, globals, values, bound)
    requires Accepted(allocas, someAllocas) && Accepted(globals, someGlobals)
    ensures Ready(allocas + globals, h)
    ensures forall r | r in allocas + globals ::
      r in h.kids <==> (r in someAllocas || r in someGlobals) && (allocas + globals)[r].Arity() > 0
    ensures roots.Keys == globals.Keys && forall r | r in globals :: roots[r].ty == globals[r]
    ensures forall x | x in h.vars && h.vars[x].root in someGlobals :: Stands(h, init, roots, values, x)
  {
    var a, next := ExpandSomeAllocas(allocas, bound, someAllocas);
    var g, last;
    g, init, roots, last := ExpandSomeGlobals(globals, values, next, someGlobals);
    h := Both(a, g);
    NumberedApart(allocas, globals, someAllocas, someGlobals, a, g, bound, next, last);
    BothReady(allocas, globals, someAllocas, someGlobals, a, g);
    forall x | x in h.vars && h.vars[x].root in someGlobals ensures Stands(h, init, roots, values, x) {
      StandsInBoth(a, g, init, roots, values, x);
    }
  }

  /** Expand the accepted objects, then rewrite the program. */
  method Disaggregate(allocas: Objects, globals: Objects, values: Memory, bound: Id,
                      someAllocas: seq<Id>, someGlobals: seq<Id>, prog: seq<Block<Instr>>)
    returns (h: Table, init: Memory, res: Result<seq<Block<NewInstr>>>, ghost roots: map<Id, Var>)
    requires Program(allocas, globals, values, bound)
    requires Accepted(allocas, someAllocas) && Accepted(globals, someGlobals)
    requires TypedProgram(allocas + globals, prog)
    ensures Ready(allocas + globals, h)
    ensures forall r | r in allocas + globals ::
      r in h.kids <==> (r in someAllocas || r in someGlobals) && (allocas + globals)[r].Arity() > 0
    ensures roots.Keys == globals.Keys && forall r | r in globals :: roots[r].ty == globals[r]
    ensures forall x | x in h.vars && h.vars[x].root in someGlobals :: Stands(h, init, roots, values, x)
    ensures res.Ok? <==> RewritableProgram(allocas + globals, h, prog)
    ensures res.Ok? ==> ProgramRewritten(allocas + globals, h, prog, res.value)
  {
    h, init, roots := ExpandObjects(allocas, globals, values, bound, someAllocas, someGlobals);
    res := ExpandPtrs(allocas + globals, h, prog);
  }

  /** The scalars of all expanded objects, by the variables that replace them. */
  ghost function Split(tys: Objects, h: Table, mem: Memory): map<Id, int>
    requires WellTyped(tys, mem)
  {
    map x | x in h.vars && h.vars[x].root in tys && ScalarPath(tys[h.vars[x].root], h.vars[x].path)
      :: Read(mem[h.vars[x].root], tys[h.vars[x].root], h.vars[x].path)
  }

  lemma SplitIsRelated(tys: Objects, h: Table, env: Env, mem: Memory)
    requires Ready(tys, h) && WellTyped(tys, mem)
    ensures Related(tys, h, State(env, mem), NewState(env, Split(tys, h, mem), mem))
  {
  }

  /** From any initial memory, taken apart by the initializers, the rewritten program does what the
      original does: same place, same registers, same scalars, after any number of blocks. */
  lemma DisaggregationIsCorrect(tys: Objects, h: Table, prog: seq<Block<Instr>>, out: seq<Block<NewInstr>>,
                                entry: Label, env: Env, mem: Memory, n: nat)
    requires Ready(tys, h) && ProgramRewritten(tys, h, prog, out) && WellTyped(tys, mem)
    requires TameRun(tys, h, prog, Some(entry), State(env, mem), n)
    requires Run(tys, prog, Some(entry), State(env, mem), n).Some?
    ensures var r := Run(tys, prog, Some(entry), State(env, mem), n).value;
            var s := NewRun(tys, out, Some(entry), NewState(env, Split(tys, h, mem), mem), n);
            s.Some? && s.value.0 == r.0 && Related(tys, h, r.1, s.value.1)
  {
    SplitIsRelated(tys, h, env, mem);
    RunSimulates(tys, h, prog, out, Some(entry), State(env, mem), NewState(env, Split(tys, h, mem), mem), n);
  }

  /** The initializers given to the new globals start the rewritten program in a related state. */
  lemma InitializersAgree(tys: Objects, h: Table, init: Memory, roots: map<Id, Var>, mem: Memory, x: Id)
    requires Ready(tys, h) && WellTyped(tys, mem)
    requires Stands(h, init, roots, mem, x) && h.vars[x].ty.Scalar?
    requires h.vars[x].root in tys && roots[h.vars[x].root].ty == tys[h.vars[x].root]
    ensures x in Split(tys, h, mem) && init[x] == Leaf(Split(tys, h, mem)[x])
  {
  }
}
