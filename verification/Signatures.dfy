/** Expansion of function signatures and call sites: an expanded pointer argument is followed by
    one argument for each part of what it points to, recursively, and every call gets null
    pointers in the same places.
 */
module Signatures {
  import opened Types

  /** The type of an argument: a pointer to some type, or no pointer. */
  datatype ArgTy = Pointer(pointee: Ty) | NonPointer(prim: Prim)

  /** A pointer to a part: an array decays to a pointer to its elements. */
  function Decayed(t: Ty): ArgTy {
    Pointer(if t.Array? then t.elem else t)
  }

  /** The arguments added for what a pointer points to, in preorder. */
  function Added(t: Ty): seq<ArgTy>
    decreases t, t.Arity() + 1
  {
    AddedBefore(t, t.Arity())
  }

  function AddedBefore(t: Ty, n: nat): seq<ArgTy>
    requires n <= t.Arity()
    decreases t, n
  {
    if n == 0 then [] else AddedBefore(t, n - 1) + [Decayed(t.Elem(n - 1))] + Added(t.Elem(n - 1))
  }

  /** The same with the argument seen as a pointer to the first of `dim` objects. */
  function AddedFor(ty: ArgTy, dim: nat): seq<ArgTy> {
    if ty.NonPointer? then []
    else if dim == 0 then Added(ty.pointee)
    else AddedDecayed(ty.pointee, dim)
  }

  function AddedDecayed(t: Ty, dim: nat): seq<ArgTy> {
    if dim == 0 then [] else AddedDecayed(t, dim - 1) + [Decayed(t)] + Added(t)
  }

  /** The number of the parameter for part `e` of what parameter `at` points to: behind
      everything added for the parts before it. */
  function KidAt(t: Ty, at: nat, e: nat): nat
    requires e < t.Arity()
  {
    at + 1 + |AddedBefore(t, e)|
  }

  function KidsAt(t: Ty, at: nat, n: nat): (r: seq<nat>)
    requires n <= t.Arity()
    ensures |r| == n && forall e: nat {:trigger r[e]} :: e < n ==> r[e] == KidAt(t, at, e)
  {
    seq(n, e requires 0 <= e < n => KidAt(t, at, e))
  }

  /** The numbers of the parameters for the first `n` objects behind a decayed pointer. */
  function DecayedAt(t: Ty, at: nat, e: nat): nat {
    at + 1 + |AddedDecayed(t, e)|
  }

  type Parts = map<nat, seq<nat>>

  function PartsOf(parts: Parts, a: nat): seq<nat> {
    if a in parts then parts[a] else []
  }

  /** The record of which parameters stand for the parts of parameter `at`, all the way down. */
  ghost predicate Tree(parts: Parts, t: Ty, at: nat)
    decreases t
  {
    |PartsOf(parts, at)| == t.Arity() &&
    forall e: nat :: e < t.Arity() ==>
      PartsOf(parts, at)[e] == KidAt(t, at, e) && Tree(parts, t.Elem(e), PartsOf(parts, at)[e])
  }

  /** The same for the first `n` objects behind a decayed pointer: one recorded parameter for each,
      with the tree of its parts below it. */
  ghost predicate DecayedTree(parts: Parts, t: Ty, at: nat, n: nat) {
    DecayedRow(PartsOf(parts, at), t, at, n) && DecayedTrees(parts, t, at, n)
  }

  ghost predicate DecayedRow(kids: seq<nat>, t: Ty, at: nat, n: nat) {
    |kids| == n && forall e: nat {:trigger kids[e]} :: e < n ==> kids[e] == DecayedAt(t, at, e)
  }

  ghost predicate DecayedTrees(parts: Parts, t: Ty, at: nat, n: nat) {
    forall e: nat {:trigger Tree(parts, t, DecayedAt(t, at, e))} :: e < n ==> Tree(parts, t, DecayedAt(t, at, e))
  }

  /** The record of an expandable argument. */
  ghost predicate Recorded(parts: Parts, ty: ArgTy, dim: nat, at: nat) {
    if ty.NonPointer? then PartsOf(parts, at) == []
    else if dim == 0 then Tree(parts, ty.pointee, at)
    else DecayedTree(parts, ty.pointee, at, dim)
  }

  lemma {:induction false} AddedBeforeGrows(t: Ty, m: nat, n: nat)
    requires m < n <= t.Arity()
    ensures AddedBefore(t, m) + ([Decayed(t.Elem(m))] + Added(t.Elem(m))) <= AddedBefore(t, n)
    decreases n
  {
    if m < n - 1 {
      AddedBeforeGrows(t, m, n - 1);
    } else {
      Regroup(AddedBefore(t, m), Decayed(t.Elem(m)), Added(t.Elem(m)));
    }
  }

  /** The parameters below one parameter occupy one contiguous block right behind it, part after
      part; each part's own block is inside. */
  lemma BlocksAreContiguous(t: Ty, at: nat, e: nat)
    requires e < t.Arity()
    ensures KidAt(t, at, 0) == at + 1
    ensures e + 1 < t.Arity() ==> KidAt(t, at, e + 1) == KidAt(t, at, e) + 1 + |Added(t.Elem(e))|
    ensures e + 1 == t.Arity() ==> at + 1 + |Added(t)| == KidAt(t, at, e) + 1 + |Added(t.Elem(e))|
    ensures at < KidAt(t, at, e) && KidAt(t, at, e) + |Added(t.Elem(e))| <= at + |Added(t)|
  {
    AddedBeforeGrows(t, e, t.Arity());
  }

  /** The new parameter for a part is a pointer to the part, or to its elements if the part is an array;
      the block of the part is behind it. */
  lemma KidHasPartType(t: Ty, at: nat, e: nat)
    requires e < t.Arity()
    ensures var k, part := KidAt(t, at, e) - at - 1, t.Elem(e);
            k + |Added(part)| < |Added(t)| && Added(t)[k + 1..k + 1 + |Added(part)|] == Added(part) &&
            Added(t)[k] == (if part.Array? then Pointer(part.elem) else Pointer(part))
  {
    AddedBeforeGrows(t, e, t.Arity());
    BlockInside(AddedBefore(t, e), Decayed(t.Elem(e)), Added(t.Elem(e)), Added(t));
  }

  lemma {:induction false} DecayedGrowsTo(t: Ty, m: nat, n: nat)
    requires m < n
    ensures AddedDecayed(t, m) + ([Decayed(t)] + Added(t)) <= AddedDecayed(t, n)
    decreases n
  {
    if m < n - 1 {
      DecayedGrowsTo(t, m, n - 1);
    } else {
      Regroup(AddedDecayed(t, m), Decayed(t), Added(t));
    }
  }

  /** The same for each of several objects. */
  lemma ObjectHasType(t: Ty, at: nat, e: nat, n: nat)
    requires e < n
    ensures var k := DecayedAt(t, at, e) - at - 1;
            k + |Added(t)| < |AddedDecayed(t, n)| && AddedDecayed(t, n)[k + 1..k + 1 + |Added(t)|] == Added(t) &&
            AddedDecayed(t, n)[k] == (if t.Array? then Pointer(t.elem) else Pointer(t))
  {
    DecayedGrowsTo(t, e, n);
    BlockInside(AddedDecayed(t, e), Decayed(t), Added(t), AddedDecayed(t, n));
  }

  /** The record below `at` only depends on the parameters of its block. */
  lemma {:induction false} TreeFrame(p: Parts, q: Parts, t: Ty, at: nat)
    requires Tree(p, t, at)
    requires forall a: nat :: at <= a <= at + |Added(t)| ==> PartsOf(p, a) == PartsOf(q, a)
    ensures Tree(q, t, at)
    decreases t
  {
    forall e: nat | e < t.Arity() ensures Tree(q, t.Elem(e), KidAt(t, at, e)) {
      BlocksAreContiguous(t, at, e);
      TreeFrame(p, q, t.Elem(e), KidAt(t, at, e));
    }
  }

  class SignatureExpander {
    var types: seq<ArgTy>    // the new parameters
    var nulls: seq<ArgTy>    // types of the null pointers added for one old argument
    var parts: Parts         // which new parameters stand for the parts of one

    constructor ()
      ensures types == [] && nulls == [] && parts == map[]
    {
      types, nulls, parts := [], [], map[];
    }

    /** Nothing is recorded about parameters that do not exist. */
    ghost predicate Valid()
      reads this
    {
      forall a | a in parts :: a < |types|
    }

    /** A new parameter for a part of parameter `arg`, and the null pointer that goes with it. */
    method AddArg(arg: nat, ty: ArgTy) returns (newArg: nat)
      requires Valid() && arg < |types|
      modifies this
      ensures Valid() && newArg == |old(types)|
      ensures types == old(types) + [ty] && nulls == old(nulls) + [ty]
      ensures parts == old(parts)[arg := PartsOf(old(parts), arg) + [newArg]]
    {
      newArg := |types|;
      types := types + [ty];
      parts := parts[arg := PartsOf(parts, arg) + [newArg]];
      nulls := nulls + [ty];
    }

    /** Add the parameter for one part of parameter `arg`, and everything below it. */
    method ExpPart(part: Ty, argTy: ArgTy, arg: nat)
      requires Valid() && arg < |types|
      modifies this
      ensures Valid() && types == old(types) + ([argTy] + Added(part)) && nulls == old(nulls) + ([argTy] + Added(part))
      ensures PartsOf(parts, arg) == PartsOf(old(parts), arg) + [|old(types)|]
      ensures SameBut(old(parts), parts, arg, |old(types)|) && Tree(parts, part, |old(types)|)
      decreases part, 2
    {
      Regroup(types, argTy, Added(part));
      Regroup(nulls, argTy, Added(part));
      var newArg := AddArg(arg, argTy);
      ghost var mid := parts;
      ExpPointee(part, newArg);
      assert PartsOf(parts, arg) == PartsOf(mid, arg);
    }

    /** Add the parameters for the parts of what the last parameter points to. */
    method ExpPointee(t: Ty, arg: nat)
      requires Valid() && arg + 1 == |types| && arg !in parts
      modifies this
      ensures Valid() && types == old(types) + Added(t) && nulls == old(nulls) + Added(t)
      ensures Tree(parts, t, arg)
      ensures forall a: nat :: a < arg ==> PartsOf(parts, a) == PartsOf(old(parts), a)
      decreases t, 1
    {
      ghost var types0, nulls0, parts0 := types, nulls, parts;
      for e := 0 to t.Arity()
        invariant Valid() && types == types0 + AddedBefore(t, e) && nulls == nulls0 + AddedBefore(t, e)
        invariant PartsOf(parts, arg) == KidsAt(t, arg, e) && KidTrees(parts, t, arg, e)
        invariant forall a: nat :: a < arg ==> PartsOf(parts, a) == PartsOf(parts0, a)
      {
        NextAdded(t, e, types0, nulls0);
        ExpNext(t, arg, e);
      }
    }

    /** Add the parameters for part `e` of what parameter `arg` points to. */
    method ExpNext(t: Ty, arg: nat, e: nat)
      requires e < t.Arity() && Valid() && |types| == KidAt(t, arg, e)
      requires PartsOf(parts, arg) == KidsAt(t, arg, e) && KidTrees(parts, t, arg, e)
      modifies this
      ensures var part := [Decayed(t.Elem(e))] + Added(t.Elem(e));
              types == old(types) + part && nulls == old(nulls) + part
      ensures Valid() && PartsOf(parts, arg) == KidsAt(t, arg, e + 1) && KidTrees(parts, t, arg, e + 1)
      ensures forall a: nat :: a < arg ==> PartsOf(parts, a) == PartsOf(old(parts), a)
      decreases t, 0
    {
      ghost var before := parts;
      KidsSnoc(t, arg, e);
      ExpPart(t.Elem(e), Decayed(t.Elem(e)), arg);
      KidsStay(before, parts, t, arg, e);
    }

    /** Add the parameters for an expandable argument, which may be a pointer to the first of
        `dim` objects. */
    method ExpArg(argTy: ArgTy, dim: nat, arg: nat)
      requires Valid() && arg + 1 == |types| && arg !in parts
      modifies this
      ensures Valid() && types == old(types) + AddedFor(argTy, dim) && nulls == old(nulls) + AddedFor(argTy, dim)
      ensures Recorded(parts, argTy, dim, arg)
      ensures forall a: nat :: a < arg ==> PartsOf(parts, a) == PartsOf(old(parts), a)
    {
      if argTy.Pointer? {
        if dim > 0 {
          ExpDecayed(argTy.pointee, dim, arg);
        } else {
          ExpPointee(argTy.pointee, arg);
        }
      }
    }

    /** Append an old argument and, if it is expandable, the parameters for its parts. */
    method AddOldArg(a: OldArg)
      requires Valid()
      modifies this
      ensures Valid() && types == old(types) + ([a.ty] + a.Extra()) && nulls == a.Extra()
      ensures RecordedArg(parts, a, |old(types)|)
      ensures forall i: nat :: i < |old(types)| ==> PartsOf(parts, i) == PartsOf(old(parts), i)
    {
      Regroup(types, a.ty, a.Extra());
      var arg := |types|;
      types := types + [a.ty];
      nulls := [];
      if a.expandable {
        ExpArg(a.ty, a.Dim(), arg);
      }
    }

    method ExpDecayed(t: Ty, dim: nat, arg: nat)
      requires Valid() && arg + 1 == |types| && arg !in parts
      modifies this
      ensures Valid() && types == old(types) + AddedDecayed(t, dim) && nulls == old(nulls) + AddedDecayed(t, dim)
      ensures DecayedTree(parts, t, arg, dim)
      ensures forall a: nat :: a < arg ==> PartsOf(parts, a) == PartsOf(old(parts), a)
    {
      ghost var types0, nulls0, parts0 := types, nulls, parts;
      for e := 0 to dim
        invariant Valid() && types == types0 + AddedDecayed(t, e) && nulls == nulls0 + AddedDecayed(t, e)
        invariant DecayedTree(parts, t, arg, e)
        invariant forall a: nat :: a < arg ==> PartsOf(parts, a) == PartsOf(parts0, a)
      {
        NextDecayed(t, e, types0, nulls0);
        ExpObject(t, arg, e);
      }
    }

    /** Add the parameters for the next object behind a decayed pointer. */
    method ExpObject(t: Ty, arg: nat, ghost e: nat)
      requires Valid() && |types| == DecayedAt(t, arg, e) && DecayedTree(parts, t, arg, e)
      modifies this
      ensures Valid() && DecayedTree(parts, t, arg, e + 1)
      ensures types == old(types) + ([Decayed(t)] + Added(t)) && nulls == old(nulls) + ([Decayed(t)] + Added(t))
      ensures forall a: nat :: a < arg ==> PartsOf(parts, a) == PartsOf(old(parts), a)
    {
      ghost var before := parts;
      ExpPart(t, Decayed(t), arg);
      DecayedStay(before, parts, t, arg, e);
      RowSnoc(PartsOf(before, arg), t, arg, e);
    }
  }

  lemma NextAdded(t: Ty, e: nat, out: seq<ArgTy>, nulls: seq<ArgTy>)
    requires e < t.Arity()
    ensures var part := [Decayed(t.Elem(e))] + Added(t.Elem(e));
            out + AddedBefore(t, e + 1) == (out + AddedBefore(t, e)) + part &&
            nulls + AddedBefore(t, e + 1) == (nulls + AddedBefore(t, e)) + part
  {
  }

  lemma NextDecayed(t: Ty, e: nat, out: seq<ArgTy>, nulls: seq<ArgTy>)
    ensures var part := [Decayed(t)] + Added(t);
            out + AddedDecayed(t, e + 1) == (out + AddedDecayed(t, e)) + part &&
            nulls + AddedDecayed(t, e + 1) == (nulls + AddedDecayed(t, e)) + part
  {
  }

  /** Below parameter `bound` the records only changed at `arg`. */
  ghost predicate SameBut(before: Parts, after: Parts, arg: nat, bound: nat) {
    forall a: nat :: a < bound && a != arg ==> PartsOf(after, a) == PartsOf(before, a)
  }

  /** The records of the first `n` parts of what parameter `at` points to. */
  ghost predicate KidTrees(parts: Parts, t: Ty, at: nat, n: nat)
    requires n <= t.Arity()
  {
    forall d: nat {:trigger Tree(parts, t.Elem(d), KidAt(t, at, d))} :: d < n ==>
      Tree(parts, t.Elem(d), KidAt(t, at, d))
  }

  lemma KidsSnoc(t: Ty, at: nat, e: nat)
    requires e < t.Arity()
    ensures KidsAt(t, at, e + 1) == KidsAt(t, at, e) + [KidAt(t, at, e)]
  {
    var longer, shorter := KidsAt(t, at, e + 1), KidsAt(t, at, e);
    forall d: nat | d < e + 1 ensures longer[d] == (shorter + [KidAt(t, at, e)])[d] {
      if d < e { assert shorter[d] == KidAt(t, at, d); }
    }
  }

  lemma Regroup(a: seq<ArgTy>, x: ArgTy, b: seq<ArgTy>)
    ensures (a + [x]) + b == a + ([x] + b)
  {
  }

  lemma KidsStay(before: Parts, after: Parts, t: Ty, at: nat, e: nat)
    requires e < t.Arity() && KidTrees(before, t, at, e) && Tree(after, t.Elem(e), KidAt(t, at, e))
    requires SameBut(before, after, at, KidAt(t, at, e))
    ensures KidTrees(after, t, at, e + 1)
  {
    forall d: nat | d < e + 1 ensures Tree(after, t.Elem(d), KidAt(t, at, d)) {
      if d < e { KidStays(before, after, t, at, d, e); }
    }
  }

  lemma KidStays(before: Parts, after: Parts, t: Ty, at: nat, d: nat, e: nat)
    requires d < e < t.Arity() && Tree(before, t.Elem(d), KidAt(t, at, d))
    requires SameBut(before, after, at, KidAt(t, at, e))
    ensures Tree(after, t.Elem(d), KidAt(t, at, d))
  {
    AddedBeforeGrows(t, d, e);
    TreeFrame(before, after, t.Elem(d), KidAt(t, at, d));
  }

  lemma DecayedStay(before: Parts, after: Parts, t: Ty, at: nat, e: nat)
    requires DecayedTrees(before, t, at, e) && Tree(after, t, DecayedAt(t, at, e))
    requires SameBut(before, after, at, DecayedAt(t, at, e))
    ensures DecayedTrees(after, t, at, e + 1)
  {
    forall d: nat | d < e + 1 ensures Tree(after, t, DecayedAt(t, at, d)) {
      if d < e { OneDecayedStays(before, after, t, at, d, e); }
    }
  }

  lemma RowSnoc(kids: seq<nat>, t: Ty, at: nat, e: nat)
    requires DecayedRow(kids, t, at, e)
    ensures DecayedRow(kids + [DecayedAt(t, at, e)], t, at, e + 1)
  {
  }

  lemma OneDecayedStays(before: Parts, after: Parts, t: Ty, at: nat, d: nat, e: nat)
    requires d < e && Tree(before, t, DecayedAt(t, at, d))
    requires SameBut(before, after, at, DecayedAt(t, at, e))
    ensures Tree(after, t, DecayedAt(t, at, d))
  {
    DecayedGrows(t, d, e);
    TreeFrame(before, after, t, DecayedAt(t, at, d));
  }

  lemma {:induction false} DecayedGrows(t: Ty, m: nat, n: nat)
    requires m < n
    ensures |AddedDecayed(t, m)| + 1 + |Added(t)| <= |AddedDecayed(t, n)|
    decreases n
  {
    if m < n - 1 { DecayedGrows(t, m, n - 1); }
  }

  // ----- a whole signature and its calls -----

  datatype OldArg = OldArg(ty: ArgTy, expandable: bool, dims: seq<nat>) {
    /** What is added behind the argument. */
    function Extra(): seq<ArgTy> {
      if expandable then AddedFor(ty, Dim()) else []
    }

    /** How many objects the argument points to the first of; 0 when it points to one whole object. */
    function Dim(): nat {
      if dims == [] then 0 else dims[0]
    }
  }

  /** The parameters the first `n` arguments turn into. */
  function NewParams(args: seq<OldArg>, n: nat): seq<ArgTy>
    requires n <= |args|
  {
    if n == 0 then [] else NewParams(args, n - 1) + ([args[n - 1].ty] + args[n - 1].Extra())
  }

  /** The parameter an old argument becomes: behind all earlier arguments and their parts. */
  function Start(args: seq<OldArg>, i: nat): nat
    requires i < |args|
  {
    |NewParams(args, i)|
  }

  /** An operand of a call: given by the program, or the null pointer put in for a part. */
  datatype Operand = Given(v: int, ty: ArgTy) | NullPointer(ty: ArgTy)

  function TypesOf(ops: seq<Operand>): (r: seq<ArgTy>)
    ensures |r| == |ops| && forall k :: 0 <= k < |r| ==> r[k] == ops[k].ty
  {
    seq(|ops|, k requires 0 <= k < |ops| => ops[k].ty)
  }

  function Nulls(tys: seq<ArgTy>): (r: seq<Operand>)
    ensures |r| == |tys| && forall k :: 0 <= k < |r| ==> r[k] == NullPointer(tys[k])
  {
    seq(|tys|, k requires 0 <= k < |tys| => NullPointer(tys[k]))
  }

  lemma {:induction false} NewParamsGrow(args: seq<OldArg>, m: nat, n: nat)
    requires m < n <= |args|
    ensures NewParams(args, m) + ([args[m].ty] + args[m].Extra()) <= NewParams(args, n)
    decreases n
  {
    if m < n - 1 { NewParamsGrow(args, m, n - 1); }
  }

  /** Each old argument keeps its type at its new place, with its parts right behind it, and the
      blocks of different arguments follow each other. */
  lemma ArgumentPlaces(args: seq<OldArg>, i: nat)
    requires i < |args|
    ensures Start(args, i) + |args[i].Extra()| < |NewParams(args, |args|)|
    ensures NewParams(args, |args|)[Start(args, i)] == args[i].ty
    ensures NewParams(args, |args|)[Start(args, i) + 1..Start(args, i) + 1 + |args[i].Extra()|] == args[i].Extra()
    ensures i + 1 < |args| ==> Start(args, i + 1) == Start(args, i) + 1 + |args[i].Extra()|
    ensures i + 1 == |args| ==> |NewParams(args, |args|)| == Start(args, i) + 1 + |args[i].Extra()|
  {
    NewParamsGrow(args, i, |args|);
    BlockInside(NewParams(args, i), args[i].ty, args[i].Extra(), NewParams(args, |args|));
  }

  /** The new parameter stands for a part of type `t`: it points to the part, or to its elements if the part
      is an array. */
  predicate PointsToPart(params: seq<ArgTy>, q: nat, t: Ty) {
    q < |params| && params[q] == if t.Array? then Pointer(t.elem) else Pointer(t)
  }

  /** There is one parameter for each part of what parameter `at` points to, all the way down, with the
      type of a pointer to that part. */
  ghost predicate PartParams(params: seq<ArgTy>, parts: Parts, t: Ty, at: nat)
    decreases t, 0
  {
    |PartsOf(parts, at)| == t.Arity() &&
    forall e: nat :: e < t.Arity() ==> PartParam(params, parts, t.Elem(e), PartsOf(parts, at)[e])
  }

  ghost predicate PartParam(params: seq<ArgTy>, parts: Parts, t: Ty, q: nat)
    decreases t, 1
  {
    PointsToPart(params, q, t) && PartParams(params, parts, t, q)
  }

  ghost predicate ObjectParams(params: seq<ArgTy>, parts: Parts, t: Ty, at: nat, n: nat) {
    |PartsOf(parts, at)| == n &&
    forall e: nat :: e < n ==> PartParam(params, parts, t, PartsOf(parts, at)[e])
  }

  /** What an old argument has become: itself; if it is expandable, one parameter for each object its first
      dimension counts, or, if there is none, for each part of its one object. */
  ghost predicate ArgParams(params: seq<ArgTy>, parts: Parts, a: OldArg, at: nat) {
    at < |params| && params[at] == a.ty &&
    if !a.expandable || a.ty.NonPointer? then PartsOf(parts, at) == []
    else if a.dims != [] && a.dims[0] > 0 then ObjectParams(params, parts, a.ty.pointee, at, a.dims[0])
    else PartParams(params, parts, a.ty.pointee, at)
  }

  /** The parameters behind `at` are those of the block. */
  predicate BlockAt(params: seq<ArgTy>, at: nat, block: seq<ArgTy>) {
    at + |block| < |params| && forall j: nat {:trigger block[j]} :: j < |block| ==> params[at + 1 + j] == block[j]
  }

  lemma BlockOfBlock(params: seq<ArgTy>, at: nat, block: seq<ArgTy>, k: nat, inner: seq<ArgTy>)
    requires BlockAt(params, at, block) && k + |inner| < |block| && block[k + 1..k + 1 + |inner|] == inner
    ensures params[at + 1 + k] == block[k] && BlockAt(params, at + 1 + k, inner)
  {
    forall j: nat | j < |inner| ensures params[at + 1 + k + 1 + j] == inner[j] {
      assert inner[j] == block[k + 1..k + 1 + |inner|][j] == block[k + 1 + j];
    }
  }

  lemma SliceIsBlock(params: seq<ArgTy>, at: nat, block: seq<ArgTy>)
    requires at + |block| < |params| && params[at + 1..at + 1 + |block|] == block
    ensures BlockAt(params, at, block)
  {
    forall j: nat | j < |block| ensures params[at + 1 + j] == block[j] {
      assert params[at + 1..at + 1 + |block|][j] == params[at + 1 + j];
    }
  }

  lemma {:induction false} TreeIsTyped(params: seq<ArgTy>, parts: Parts, t: Ty, at: nat)
    requires Tree(parts, t, at) && BlockAt(params, at, Added(t))
    ensures PartParams(params, parts, t, at)
    decreases t
  {
    forall e: nat | e < t.Arity() ensures PartParam(params, parts, t.Elem(e), PartsOf(parts, at)[e]) {
      KidInBlock(params, t, at, e);
      TreeIsTyped(params, parts, t.Elem(e), KidAt(t, at, e));
    }
  }

  lemma {:induction false} KidInBlock(params: seq<ArgTy>, t: Ty, at: nat, e: nat)
    requires e < t.Arity() && BlockAt(params, at, Added(t))
    ensures PointsToPart(params, KidAt(t, at, e), t.Elem(e)) && BlockAt(params, KidAt(t, at, e), Added(t.Elem(e)))
  {
    KidHasPartType(t, at, e);
    BlockOfBlock(params, at, Added(t), KidAt(t, at, e) - at - 1, Added(t.Elem(e)));
  }

  lemma {:induction false} ObjectInBlock(params: seq<ArgTy>, t: Ty, at: nat, e: nat, n: nat)
    requires e < n && BlockAt(params, at, AddedDecayed(t, n))
    ensures PointsToPart(params, DecayedAt(t, at, e), t) && BlockAt(params, DecayedAt(t, at, e), Added(t))
  {
    ObjectHasType(t, at, e, n);
    BlockOfBlock(params, at, AddedDecayed(t, n), DecayedAt(t, at, e) - at - 1, Added(t));
  }

  lemma DecayedIsTyped(params: seq<ArgTy>, parts: Parts, t: Ty, at: nat, n: nat)
    requires DecayedTree(parts, t, at, n) && BlockAt(params, at, AddedDecayed(t, n))
    ensures ObjectParams(params, parts, t, at, n)
  {
    forall e: nat | e < n ensures PartParam(params, parts, t, PartsOf(parts, at)[e]) {
      assert PartsOf(parts, at)[e] == DecayedAt(t, at, e);
      ObjectInBlock(params, t, at, e, n);
      assert Tree(parts, t, DecayedAt(t, at, e));
      TreeIsTyped(params, parts, t, DecayedAt(t, at, e));
    }
  }

  lemma BlockIsTyped(params: seq<ArgTy>, parts: Parts, a: OldArg, at: nat)
    requires at < |params| && params[at] == a.ty && BlockAt(params, at, a.Extra()) && RecordedArg(parts, a, at)
    ensures ArgParams(params, parts, a, at)
  {
    if a.expandable && a.ty.Pointer? {
      if a.Dim() == 0 {
        TreeIsTyped(params, parts, a.ty.pointee, at);
      } else {
        DecayedIsTyped(params, parts, a.ty.pointee, at, a.Dim());
      }
    }
  }

  lemma ArgIsTyped(parts: Parts, args: seq<OldArg>, i: nat)
    requires i < |args| && ArgTree(parts, args, i)
    ensures ArgParams(NewParams(args, |args|), parts, args[i], Start(args, i))
    ensures BlockAt(NewParams(args, |args|), Start(args, i), args[i].Extra())
  {
    ArgumentPlaces(args, i);
    SliceIsBlock(NewParams(args, |args|), Start(args, i), args[i].Extra());
    BlockIsTyped(NewParams(args, |args|), parts, args[i], Start(args, i));
  }

  lemma AllTyped(parts: Parts, args: seq<OldArg>, expOps: seq<seq<ArgTy>>)
    requires ArgTrees(parts, args, |args|) && |expOps| == |args| && ExtrasOf(expOps, args)
    ensures AllArgParams(NewParams(args, |args|), expOps, parts, args)
  {
    forall i: nat | i < |args|
      ensures ArgParams(NewParams(args, |args|), parts, args[i], Start(args, i)) &&
              BlockAt(NewParams(args, |args|), Start(args, i), expOps[i])
    {
      assert ArgTree(parts, args, i);
      ArgIsTyped(parts, args, i);
    }
  }

  /** Every old argument has become what it should, and its calls get null pointers of the types of the
      parameters behind it. */
  ghost predicate AllArgParams(params: seq<ArgTy>, expOps: seq<seq<ArgTy>>, parts: Parts, args: seq<OldArg>)
    requires |expOps| == |args|
  {
    forall i: nat {:trigger args[i]} :: i < |args| ==>
      ArgParams(params, parts, args[i], Start(args, i)) && BlockAt(params, Start(args, i), expOps[i])
  }

  /** The new parameter list of a function, the null pointers to add to its calls behind each
      operand, and the record of which parameters stand for which parts. */
  method ExpandSignature(args: seq<OldArg>) returns (params: seq<ArgTy>, expOps: seq<seq<ArgTy>>, parts: Parts)
    ensures params == NewParams(args, |args|)
    ensures |expOps| == |args| && ExtrasOf(expOps, args)
    ensures ArgTrees(parts, args, |args|) && AllArgParams(params, expOps, parts, args)
  {
    var x := new SignatureExpander();
    expOps := [];
    for i := 0 to |args|
      invariant fresh(x) && x.Valid() && x.types == NewParams(args, i)
      invariant |expOps| == i && ExtrasOf(expOps, args)
      invariant ArgTrees(x.parts, args, i)
    {
      var nulls := NextArg(x, args, i);
      ExtrasSnoc(expOps, args);
      expOps := expOps + [nulls];
    }
    params, parts := x.types, x.parts;
    AllTyped(parts, args, expOps);
  }

  method NextArg(x: SignatureExpander, args: seq<OldArg>, i: nat) returns (nulls: seq<ArgTy>)
    requires i < |args| && x.Valid() && x.types == NewParams(args, i) && ArgTrees(x.parts, args, i)
    modifies x
    ensures x.Valid() && x.types == NewParams(args, i + 1) && ArgTrees(x.parts, args, i + 1)
    ensures nulls == args[i].Extra()
  {
    ghost var before := x.parts;
    x.AddOldArg(args[i]);
    ArgTreesStay(before, x.parts, args, i);
    nulls := x.nulls;
  }

  /** The null pointers asked for behind each operand stand for the parts of its argument. */
  predicate ExtrasOf(expOps: seq<seq<ArgTy>>, args: seq<OldArg>) {
    |expOps| <= |args| && forall i: nat {:trigger expOps[i]} :: i < |expOps| ==> expOps[i] == args[i].Extra()
  }

  lemma ExtrasSnoc(expOps: seq<seq<ArgTy>>, args: seq<OldArg>)
    requires ExtrasOf(expOps, args) && |expOps| < |args|
    ensures ExtrasOf(expOps + [args[|expOps|].Extra()], args)
  {
  }

  ghost predicate RecordedArg(parts: Parts, a: OldArg, at: nat) {
    if a.expandable then Recorded(parts, a.ty, a.Dim(), at) else PartsOf(parts, at) == []
  }

  ghost predicate ArgTrees(parts: Parts, args: seq<OldArg>, n: nat)
    requires n <= |args|
  {
    forall i: nat {:trigger ArgTree(parts, args, i)} :: i < n ==> ArgTree(parts, args, i)
  }

  ghost predicate ArgTree(parts: Parts, args: seq<OldArg>, i: nat)
    requires i < |args|
  {
    RecordedArg(parts, args[i], Start(args, i))
  }

  lemma ArgTreesStay(before: Parts, after: Parts, args: seq<OldArg>, n: nat)
    requires n < |args| && ArgTrees(before, args, n)
    requires forall a: nat :: a < Start(args, n) ==> PartsOf(after, a) == PartsOf(before, a)
    requires ArgTree(after, args, n)
    ensures ArgTrees(after, args, n + 1)
  {
    forall i: nat | i < n + 1 ensures ArgTree(after, args, i) {
      if i < n { ArgTreeStays(before, after, args, i, n); }
    }
  }

  lemma ArgTreeStays(before: Parts, after: Parts, args: seq<OldArg>, i: nat, n: nat)
    requires i < n < |args| && ArgTree(before, args, i)
    requires forall a: nat :: a < Start(args, n) ==> PartsOf(after, a) == PartsOf(before, a)
    ensures ArgTree(after, args, i)
  {
    NewParamsGrow(args, i, n);
    ArgFrame(before, after, args[i], Start(args, i));
  }

  /** The record of an argument only depends on the parameters of its block. */
  lemma ArgFrame(p: Parts, q: Parts, a: OldArg, at: nat)
    requires RecordedArg(p, a, at)
    requires forall i: nat :: at <= i <= at + |a.Extra()| ==> PartsOf(q, i) == PartsOf(p, i)
    ensures RecordedArg(q, a, at)
  {
    if a.expandable && a.ty.Pointer? {
      if a.Dim() == 0 {
        TreeFrame(p, q, a.ty.pointee, at);
      } else {
        DecayedFrame(p, q, a.ty.pointee, at, a.Dim());
      }
    }
  }

  lemma DecayedFrame(p: Parts, q: Parts, t: Ty, at: nat, n: nat)
    requires DecayedTree(p, t, at, n)
    requires forall i: nat :: at <= i <= at + |AddedDecayed(t, n)| ==> PartsOf(q, i) == PartsOf(p, i)
    ensures DecayedTree(q, t, at, n)
  {
    forall e: nat | e < n ensures Tree(q, t, DecayedAt(t, at, e)) {
      DecayedGrows(t, e, n);
      TreeFrame(p, q, t, DecayedAt(t, at, e));
    }
  }

  /** The operands of a rebuilt call: each operand, then the null pointers for its parts. */
  function NewOps(ops: seq<Operand>, expOps: seq<seq<ArgTy>>, n: nat): seq<Operand>
    requires n <= |ops| == |expOps|
  {
    if n == 0 then [] else NewOps(ops, expOps, n - 1) + ([ops[n - 1]] + Nulls(expOps[n - 1]))
  }

  method ExpandCall(ops: seq<Operand>, expOps: seq<seq<ArgTy>>) returns (newOps: seq<Operand>)
    requires |ops| == |expOps|
    ensures newOps == NewOps(ops, expOps, |ops|)
  {
    newOps := [];
    for i := 0 to |ops|
      invariant newOps == NewOps(ops, expOps, i)
    {
      newOps := newOps + [ops[i]];
      newOps := newOps + Nulls(expOps[i]);
    }
  }

  /** A well-typed call and the null pointers its callee asks for. */
  predicate CallMatches(args: seq<OldArg>, ops: seq<Operand>, expOps: seq<seq<ArgTy>>) {
    |ops| == |args| == |expOps| && ExtrasOf(expOps, args) &&
    forall i: nat :: i < |args| ==> ops[i].ty == args[i].ty
  }

  lemma TypesOfConcat(a: seq<Operand>, b: seq<Operand>)
    ensures TypesOf(a + b) == TypesOf(a) + TypesOf(b)
  {
  }

  lemma TypesOfBlock(op: Operand, nulls: seq<ArgTy>)
    ensures TypesOf([op] + Nulls(nulls)) == [op.ty] + nulls
  {
  }

  /** The rebuilt call has as many operands as the new function has parameters, with the same
      types one by one. */
  lemma {:induction false} CallsAlign(args: seq<OldArg>, ops: seq<Operand>, expOps: seq<seq<ArgTy>>, n: nat)
    requires CallMatches(args, ops, expOps) && n <= |args|
    ensures TypesOf(NewOps(ops, expOps, n)) == NewParams(args, n)
  {
    if n > 0 {
      CallsAlign(args, ops, expOps, n - 1);
      TypesOfConcat(NewOps(ops, expOps, n - 1), [ops[n - 1]] + Nulls(expOps[n - 1]));
      TypesOfBlock(ops[n - 1], expOps[n - 1]);
    }
  }

  lemma {:induction false} NewOpsGrow(ops: seq<Operand>, expOps: seq<seq<ArgTy>>, m: nat, n: nat)
    requires m < n <= |ops| == |expOps|
    ensures NewOps(ops, expOps, m) + ([ops[m]] + Nulls(expOps[m])) <= NewOps(ops, expOps, n)
    decreases n
  {
    if m < n - 1 { NewOpsGrow(ops, expOps, m, n - 1); }
  }

  /** In a rebuilt call every operand is bound to the parameter its old parameter became, and the
      parameters for its parts get null pointers. */
  lemma OperandPlaces(args: seq<OldArg>, ops: seq<Operand>, expOps: seq<seq<ArgTy>>, i: nat)
    requires CallMatches(args, ops, expOps) && i < |args|
    ensures var out, at := NewOps(ops, expOps, |ops|), Start(args, i);
            at + |expOps[i]| < |out| && out[at] == ops[i] && out[at + 1..at + 1 + |expOps[i]|] == Nulls(expOps[i])
  {
    SameLength(args, ops, expOps, i);
    BlockPlaces(ops, expOps, i);
  }

  lemma BlockPlaces(ops: seq<Operand>, expOps: seq<seq<ArgTy>>, i: nat)
    requires i < |ops| == |expOps|
    ensures var out, at := NewOps(ops, expOps, |ops|), |NewOps(ops, expOps, i)|;
            at + |expOps[i]| < |out| && out[at] == ops[i] && out[at + 1..at + 1 + |expOps[i]|] == Nulls(expOps[i])
  {
    NewOpsGrow(ops, expOps, i, |ops|);
    BlockInside(NewOps(ops, expOps, i), ops[i], Nulls(expOps[i]), NewOps(ops, expOps, |ops|));
  }

  lemma SameLength(args: seq<OldArg>, ops: seq<Operand>, expOps: seq<seq<ArgTy>>, n: nat)
    requires CallMatches(args, ops, expOps) && n <= |args|
    ensures |NewOps(ops, expOps, n)| == |NewParams(args, n)|
  {
    CallsAlign(args, ops, expOps, n);
    assert |TypesOf(NewOps(ops, expOps, n))| == |NewOps(ops, expOps, n)|;
  }

  lemma BlockInside<T>(before: seq<T>, x: T, block: seq<T>, all: seq<T>)
    requires before + ([x] + block) <= all
    ensures |before| + |block| < |all| && all[|before|] == x
    ensures all[|before| + 1..|before| + 1 + |block|] == block
  {
    var whole := before + ([x] + block);
    assert whole[|before|] == x;
    assert whole[|before| + 1..] == block;
  }
}
