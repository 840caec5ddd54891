/** Nested address computations over one base variable, and their flattening into a single
    list of indices.
 */
module GepChain {
  import opened Types
  import opened Layout
  import opened Indices
  import opened Wrappers

  /** A pointer: a base variable, or an address computation over a pointer. */
  datatype Ptr = Base(id: Id) | Gep(ptr: Ptr, idxs: seq<Index>) {
    function Root(): Id {
      match this
      case Base(id) => id
      case Gep(ptr, _) => ptr.Root()
    }
  }

  // ----- walking a type along index values; array steps may leave the array -----

  predicate Steps(t: Ty, i: int) {
    t.Array? || (t.Struct? && 0 <= i < |t.fields|)
  }

  function Into(t: Ty, i: int): Ty
    requires Steps(t, i)
  {
    if t.Array? then t.elem else t.fields[i]
  }

  function StepOff(t: Ty, i: int): int
    requires Steps(t, i)
  {
    if t.Array? then i * Size(t.elem) else PartOff(t, i)
  }

  function Walk(t: Ty, vs: seq<int>): Option<Ty>
    decreases vs
  {
    if vs == [] then Some(t)
    else if Steps(t, vs[0]) then Walk(Into(t, vs[0]), vs[1..])
    else None
  }

  function WalkOff(t: Ty, vs: seq<int>): int
    requires Walk(t, vs).Some?
    decreases vs
  {
    if vs == [] then 0 else StepOff(t, vs[0]) + WalkOff(Into(t, vs[0]), vs[1..])
  }

  lemma {:induction false} WalkConcat(t: Ty, vs: seq<int>, ws: seq<int>)
    ensures Walk(t, vs).None? ==> Walk(t, vs + ws).None?
    ensures Walk(t, vs).Some? ==> Walk(t, vs + ws) == Walk(Walk(t, vs).value, ws)
    ensures Walk(t, vs + ws).Some? ==>
              WalkOff(t, vs + ws) == WalkOff(t, vs) + WalkOff(Walk(t, vs).value, ws)
    decreases vs
  {
    if vs == [] {
      assert vs + ws == ws;
    } else if Steps(t, vs[0]) {
      assert (vs + ws)[1..] == vs[1..] + ws;
      WalkConcat(Into(t, vs[0]), vs[1..], ws);
    }
  }

  lemma WalkSnoc(t: Ty, vs: seq<int>, i: int)
    ensures Walk(t, vs + [i]).Some? <==> Walk(t, vs).Some? && Steps(Walk(t, vs).value, i)
    ensures Walk(t, vs + [i]).Some? ==>
              var x := Walk(t, vs).value;
              Walk(t, vs + [i]) == Some(Into(x, i)) && WalkOff(t, vs + [i]) == WalkOff(t, vs) + StepOff(x, i)
  {
    WalkConcat(t, vs, [i]);
    if Walk(t, vs).Some? {
      assert [i][1..] == [];
    }
  }

  lemma {:induction false} WalkOfPath(t: Ty, p: Path)
    requires ValidPath(t, p)
    ensures Walk(t, p) == Some(SubTy(t, p)) && WalkOff(t, p) == PathOff(t, p)
    decreases p
  {
    if p != [] {
      WalkOfPath(t.Elem(p[0]), p[1..]);
    }
  }

  // ----- what a pointer addresses -----

  /** The type a pointer points to, if its steps fit the type; struct steps are constant. */
  function Pointee(tys: map<Id, Ty>, p: Ptr): Option<Ty> {
    match p
    case Base(id) => if id in tys then Some(tys[id]) else None
    case Gep(ptr, idxs) =>
      var t := Pointee(tys, ptr);
      if t.None? || idxs == [] then None else GepTy(t.value, idxs[1..])
  }

  function GepTy(t: Ty, idxs: seq<Index>): Option<Ty>
    decreases idxs
  {
    if idxs == [] then Some(t)
    else if (t.Array? || idxs[0].Const?) && Steps(t, idxs[0].Eval(map[]))
    then GepTy(Into(t, idxs[0].Eval(map[])), idxs[1..])
    else None
  }

  lemma {:induction false} GepTyIsWalk(t: Ty, idxs: seq<Index>, env: Env)
    requires GepTy(t, idxs).Some?
    ensures Walk(t, Evals(idxs, env)) == GepTy(t, idxs)
    decreases idxs
  {
    if idxs != [] {
      assert Evals(idxs, env)[1..] == Evals(idxs[1..], env);
      GepTyIsWalk(Into(t, idxs[0].Eval(map[])), idxs[1..], env);
    }
  }

  /** Byte distance from the base: a first index strides over whole pointees, the others step
      into the pointee. */
  function Address(tys: map<Id, Ty>, p: Ptr, env: Env): int
    requires Pointee(tys, p).Some?
  {
    match p
    case Base(_) => 0
    case Gep(ptr, idxs) =>
      var t := Pointee(tys, ptr).value;
      GepTyIsWalk(t, idxs[1..], env);
      Address(tys, ptr, env) + idxs[0].Eval(env) * Size(t) + WalkOff(t, Evals(idxs[1..], env))
  }

  /** The address a flattened chain denotes: its first value strides over whole bases. */
  function ChainAddress(t: Ty, vs: seq<int>): int
    requires |vs| > 0 && Walk(t, vs[1..]).Some?
  {
    vs[0] * Size(t) + WalkOff(t, vs[1..])
  }

  // ----- flattening -----

  function Flatten(p: Ptr): (c: seq<Index>)
    ensures |c| > 0
  {
    match p
    case Base(_) => [Const(0, W32)]
    case Gep(ptr, idxs) =>
      var c := Flatten(ptr);
      if idxs == [] then c
      else c[..|c| - 1] + [Add(c[|c| - 1], idxs[0])] + idxs[1..]
  }

  predicate NoEmptyGep(p: Ptr) {
    p.Base? || (p.idxs != [] && NoEmptyGep(p.ptr))
  }

  /** Go down to the base, then extend the chain one address computation at a time. */
  method ComputeBaseAndIdxs(p: Ptr) returns (base: Id, chain: seq<Index>)
    requires NoEmptyGep(p)
    ensures base == p.Root() && chain == Flatten(p)
    decreases p
  {
    match p {
      case Base(id) =>
        base, chain := id, [Const(0, W32)];
      case Gep(ptr, idxs) =>
        base, chain := ComputeBaseAndIdxs(ptr);
        var last := |chain| - 1;
        ghost var front := chain[..last] + [Add(chain[last], idxs[0])];
        chain := chain[last := Add(chain[last], idxs[0])];
        for i := 1 to |idxs|
          invariant chain == front + idxs[1..i]
        {
          chain := chain + [idxs[i]];
        }
        assert idxs[1..|idxs|] == idxs[1..];
    }
  }

  // ----- one run of additions -----

  /** The chain with its last value replaced. */
  function Landed(vs: seq<int>, w: int): (r: seq<int>)
    requires |vs| > 0
    ensures |r| == |vs| && r[|r| - 1] == w
  {
    vs[..|vs| - 1] + [w]
  }

  /** Moving by `j` pointees from where a chain leads may be done by putting `w` for its last value:
      at the base and in an array `w` has to be the sum, unless nothing is strided over; in a struct
      field `w` has to exist, to have the type of the chain's field, and to be laid out `j` times its
      size behind it. */
  ghost predicate RunExact(t: Ty, vs: seq<int>, j: int, w: int)
    requires |vs| > 0
  {
    var n := |vs| - 1;
    if n == 0 then w == vs[0] + j || Size(t) == 0
    else
      var x, a := Walk(t, vs[1..n]), vs[n];
      x.Some? && Steps(x.value, a) &&
      if x.value.Array? then w == a + j || Size(x.value.elem) == 0
      else Steps(x.value, w) && Into(x.value, w) == Into(x.value, a) &&
           PartOff(x.value, w) == PartOff(x.value, a) + j * Size(Into(x.value, a))
  }

  lemma SplitLast(vs: seq<int>, w: int)
    requires |vs| > 1
    ensures vs[1..] == vs[1..|vs| - 1] + [vs[|vs| - 1]]
    ensures Landed(vs, w)[1..] == vs[1..|vs| - 1] + [w]
  {
  }

  lemma StrideIff(a: int, j: int, w: int, s: int)
    ensures w * s == a * s + j * s <==> w == a + j || s == 0
  {
    assert a * s + j * s == (a + j) * s;
    assert w * s - (a + j) * s == (w - (a + j)) * s;
    if w != a + j && s != 0 { assert (w - (a + j)) * s != 0; }
  }

  /** Putting `w` for the last value leads to the same type, `j` pointees further, exactly when the
      layout allows it. */
  lemma LandsIff(t: Ty, vs: seq<int>, j: int, w: int)
    requires |vs| > 0 && Walk(t, vs[1..]).Some?
    ensures Walk(t, Landed(vs, w)[1..]) == Walk(t, vs[1..]) &&
            ChainAddress(t, Landed(vs, w)) == ChainAddress(t, vs) + j * Size(Walk(t, vs[1..]).value)
       <==> RunExact(t, vs, j, w)
  {
    var n := |vs| - 1;
    if n == 0 {
      assert Landed(vs, w)[1..] == vs[1..] == [];
      StrideIff(vs[0], j, w, Size(t));
    } else {
      var mid, a := vs[1..n], vs[n];
      SplitLast(vs, w);
      WalkSnoc(t, mid, a);
      WalkSnoc(t, mid, w);
      var x := Walk(t, mid).value;
      if x.Array? { StrideIff(a, j, w, Size(x.elem)); }
    }
  }

  // ----- whole chains, run by run -----

  function Height(p: Ptr): nat {
    if p.Base? then 0 else 1 + Height(p.ptr)
  }

  predicate OneIndex(p: Ptr) {
    p.Gep? && |p.idxs| == 1
  }

  /** What is under the address computations with a single index on top of a pointer. */
  function Bottom(p: Ptr): (b: Ptr)
    ensures !OneIndex(b) && b.Root() == p.Root() && Height(b) <= Height(p)
    ensures OneIndex(p) ==> Height(b) < Height(p)
  {
    if OneIndex(p) then Bottom(p.ptr) else p
  }

  /** The sum of those single indices. */
  function RunTotal(p: Ptr, env: Env): int {
    if OneIndex(p) then RunTotal(p.ptr, env) + p.idxs[0].Eval(env) else 0
  }

  /** The places in a pointer where a run of additions ends; the first index of an address computation
      with more indices belongs to the run under it. */
  function RunEnds(p: Ptr): seq<Ptr>
    decreases Height(p), if p.Gep? then |p.idxs| else 0
  {
    if p.Base? || p.idxs == [] then []
    else if |p.idxs| == 1 then RunEnds(Bottom(p)) + [p]
    else RunEnds(Gep(p.ptr, [p.idxs[0]]))
  }

  /** The flattened chain leads to the pointee, at the address of the nested computation. */
  ghost predicate Right(tys: map<Id, Ty>, p: Ptr, env: Env) {
    Pointee(tys, p).Some? && p.Root() in tys &&
    var t, vs := tys[p.Root()], Evals(Flatten(p), env);
    Walk(t, vs[1..]) == Pointee(tys, p) && ChainAddress(t, vs) == Address(tys, p, env)
  }

  /** The whole run that ends here adds up, in the widths of its indices, to a value that the layout
      allows. */
  ghost predicate RunExactAt(tys: map<Id, Ty>, e: Ptr, env: Env) {
    e.Root() in tys &&
    RunExact(tys[e.Root()], Evals(Flatten(Bottom(e)), env), RunTotal(e, env),
             Evals(Flatten(e), env)[|Flatten(e)| - 1])
  }

  ghost predicate RunsExact(tys: map<Id, Ty>, p: Ptr, env: Env) {
    forall e | e in RunEnds(p) :: RunExactAt(tys, e, env)
  }

  lemma {:induction false} RootTyped(tys: map<Id, Ty>, p: Ptr)
    requires Pointee(tys, p).Some?
    ensures p.Root() in tys && NoEmptyGep(p)
    decreases p
  {
    if p.Gep? { RootTyped(tys, p.ptr); }
  }

  lemma EvalsConcat(c: seq<Index>, d: seq<Index>, env: Env)
    ensures Evals(c + d, env) == Evals(c, env) + Evals(d, env)
  {
  }

  lemma EvalsFront(c: seq<Index>, n: nat, env: Env)
    requires n <= |c|
    ensures Evals(c[..n], env) == Evals(c, env)[..n]
  {
  }

  /** One single index only changes the last value of the chain. */
  lemma FlattenOne(ptr: Ptr, i: Index, env: Env)
    ensures |Flatten(Gep(ptr, [i]))| == |Flatten(ptr)|
    ensures Evals(Flatten(Gep(ptr, [i])), env) ==
            Landed(Evals(Flatten(ptr), env), Evals(Flatten(Gep(ptr, [i])), env)[|Flatten(ptr)| - 1])
  {
    var c := Flatten(ptr);
    var n := |c| - 1;
    var d := c[..n] + [Add(c[n], i)];
    assert Flatten(Gep(ptr, [i])) == d;
    EvalsFront(c, n, env);
    EvalsFront(d, n, env);
    assert d[..n] == c[..n];
  }

  /** Further indices are appended. */
  lemma FlattenMore(ptr: Ptr, idxs: seq<Index>, env: Env)
    requires |idxs| > 1
    ensures Evals(Flatten(Gep(ptr, idxs)), env) ==
            Evals(Flatten(Gep(ptr, [idxs[0]])), env) + Evals(idxs[1..], env)
  {
    var c := Flatten(ptr);
    assert Flatten(Gep(ptr, idxs)) == Flatten(Gep(ptr, [idxs[0]])) + idxs[1..];
    EvalsConcat(Flatten(Gep(ptr, [idxs[0]])), idxs[1..], env);
  }

  lemma ChainExtend(t: Ty, b: seq<int>, ws: seq<int>)
    requires |b| > 0 && Walk(t, b[1..]).Some? && Walk(Walk(t, b[1..]).value, ws).Some?
    ensures Walk(t, (b + ws)[1..]) == Walk(Walk(t, b[1..]).value, ws)
    ensures ChainAddress(t, b + ws) == ChainAddress(t, b) + WalkOff(Walk(t, b[1..]).value, ws)
  {
    assert (b + ws)[1..] == b[1..] + ws;
    WalkConcat(t, b[1..], ws);
  }

  lemma LandedTwice(vs: seq<int>, v: int, w: int)
    requires |vs| > 0
    ensures Landed(Landed(vs, v), w) == Landed(vs, w)
  {
  }

  /** A run only changes the last value of the chain. */
  lemma {:induction false} RunLands(p: Ptr, env: Env)
    ensures |Flatten(p)| == |Flatten(Bottom(p))|
    ensures Evals(Flatten(p), env) == Landed(Evals(Flatten(Bottom(p)), env), Evals(Flatten(p), env)[|Flatten(p)| - 1])
    decreases p
  {
    if OneIndex(p) {
      RunLands(p.ptr, env);
      assert p == Gep(p.ptr, [p.idxs[0]]);
      FlattenOne(p.ptr, p.idxs[0], env);
      LandedTwice(Evals(Flatten(Bottom(p)), env), Evals(Flatten(p.ptr), env)[|Flatten(p.ptr)| - 1],
                  Evals(Flatten(p), env)[|Flatten(p)| - 1]);
    } else {
      LandedSame(Evals(Flatten(p), env));
    }
  }

  lemma LandedSame(vs: seq<int>)
    requires |vs| > 0
    ensures Landed(vs, vs[|vs| - 1]) == vs
  {
  }

  /** A run moves by its total. */
  lemma {:induction false} RunMoves(tys: map<Id, Ty>, p: Ptr, env: Env)
    requires Pointee(tys, p).Some?
    ensures Pointee(tys, Bottom(p)) == Pointee(tys, p)
    ensures Address(tys, p, env) == Address(tys, Bottom(p), env) + RunTotal(p, env) * Size(Pointee(tys, p).value)
    decreases p
  {
    if OneIndex(p) {
      RunMoves(tys, p.ptr, env);
      OneIndexMoves(tys, p, env);
      Distribute(RunTotal(p.ptr, env), p.idxs[0].Eval(env), Size(Pointee(tys, p).value));
    }
  }

  lemma OneIndexMoves(tys: map<Id, Ty>, p: Ptr, env: Env)
    requires OneIndex(p) && Pointee(tys, p).Some?
    ensures Pointee(tys, p.ptr) == Pointee(tys, p)
    ensures Address(tys, p, env) == Address(tys, p.ptr, env) + p.idxs[0].Eval(env) * Size(Pointee(tys, p).value)
  {
    assert p.idxs[1..] == [];
    assert Evals([], env) == [];
  }

  lemma Distribute(a: int, j: int, s: int)
    ensures (a + j) * s == a * s + j * s
  {
  }

  /** Flattening is right behind a run of additions, if it is right under it, exactly when the run's
      total is allowed by the layout; no value is excluded beforehand. */
  lemma RunIff(tys: map<Id, Ty>, p: Ptr, env: Env)
    requires Pointee(tys, p).Some? && Right(tys, Bottom(p), env)
    ensures Right(tys, p, env) <==> RunExactAt(tys, p, env)
  {
    RunMoves(tys, p, env);
    RunLands(p, env);
    LandsIff(tys[p.Root()], Evals(Flatten(Bottom(p)), env), RunTotal(p, env), Evals(Flatten(p), env)[|Flatten(p)| - 1]);
  }

  /** Appending indices keeps flattening right. */
  lemma MoreIsRight(tys: map<Id, Ty>, ptr: Ptr, idxs: seq<Index>, env: Env)
    requires |idxs| > 1 && Pointee(tys, Gep(ptr, idxs)).Some? && Right(tys, Gep(ptr, [idxs[0]]), env)
    ensures Right(tys, Gep(ptr, idxs), env)
  {
    var head := Gep(ptr, [idxs[0]]);
    FlattenMore(ptr, idxs, env);
    OneIndexMoves(tys, head, env);
    GepTyIsWalk(Pointee(tys, ptr).value, idxs[1..], env);
    ChainExtend(tys[ptr.Root()], Evals(Flatten(head), env), Evals(idxs[1..], env));
  }

  lemma MoreIsTyped(tys: map<Id, Ty>, ptr: Ptr, idxs: seq<Index>)
    requires |idxs| > 1 && Pointee(tys, Gep(ptr, idxs)).Some?
    ensures Pointee(tys, Gep(ptr, [idxs[0]])).Some?
  {
    assert [idxs[0]][1..] == [];
  }

  /** For a chain of any length, flattening is right at the end of every run of additions exactly when
      every run's total is allowed by the layout; then it is right for the whole chain. */
  lemma {:induction false} FlattenIff(tys: map<Id, Ty>, p: Ptr, env: Env)
    requires Pointee(tys, p).Some?
    ensures (forall e | e in RunEnds(p) :: Right(tys, e, env)) <==> RunsExact(tys, p, env)
    ensures RunsExact(tys, p, env) ==> Right(tys, p, env)
    decreases Height(p), if p.Gep? then |p.idxs| else 0
  {
    RootTyped(tys, p);
    if p.Base? {
      assert Evals(Flatten(p), env)[1..] == [];
    } else if |p.idxs| == 1 {
      RunMoves(tys, p, env);
      FlattenIff(tys, Bottom(p), env);
      assert forall e :: e in RunEnds(p) <==> e in RunEnds(Bottom(p)) || e == p;
      if forall e | e in RunEnds(Bottom(p)) :: Right(tys, e, env) {
        RunIff(tys, p, env);
      }
    } else {
      MoreIsTyped(tys, p.ptr, p.idxs);
      FlattenIff(tys, Gep(p.ptr, [p.idxs[0]]), env);
      if RunsExact(tys, p, env) { MoreIsRight(tys, p.ptr, p.idxs, env); }
    }
  }

  // ----- what the indices of a pointer say, whatever the pass makes of them -----

  function LastOf(vs: seq<int>): int
    requires |vs| > 0
  {
    vs[|vs| - 1]
  }

  /** The coordinates a pointer spells, in exact integers: a first index moves the last coordinate of the
      pointer it is applied to, the others are new coordinates. */
  function Spelled(p: Ptr, env: Env): (vs: seq<int>)
    ensures |vs| > 0
  {
    match p
    case Base(_) => [0]
    case Gep(ptr, idxs) =>
      var vs := Spelled(ptr, env);
      if idxs == [] then vs
      else vs[..|vs| - 1] + [LastOf(vs) + idxs[0].Eval(env)] + Evals(idxs[1..], env)
  }

  /** Every moved coordinate fits the width of the index that moves it. */
  predicate MovesFit(p: Ptr, env: Env) {
    p.Base? ||
    (MovesFit(p.ptr, env) &&
     (p.idxs != [] ==> Fits(p.idxs[0].WidthOf(), LastOf(Spelled(p.ptr, env)) + p.idxs[0].Eval(env))))
  }

  lemma WrapOfFitting(w: Width, x: int)
    requires Fits(w, x)
    ensures Wrap(w, x) == x
  {
  }

  /** While moved coordinates fit, flattening computes the coordinates that are spelled. */
  lemma {:induction false} FlattenSpells(p: Ptr, env: Env)
    requires MovesFit(p, env)
    ensures Evals(Flatten(p), env) == Spelled(p, env)
    decreases p
  {
    if p.Gep? {
      FlattenSpells(p.ptr, env);
      if p.idxs != [] { FlattenMoves(p.ptr, p.idxs, Flatten(p.ptr), Spelled(p.ptr, env), env); }
    }
  }

  lemma {:induction false} FlattenMoves(ptr: Ptr, idxs: seq<Index>, c: seq<Index>, vs: seq<int>, env: Env)
    requires c == Flatten(ptr) && vs == Spelled(ptr, env) && Evals(c, env) == vs
    requires idxs != [] && Fits(idxs[0].WidthOf(), LastOf(vs) + idxs[0].Eval(env))
    ensures Evals(Flatten(Gep(ptr, idxs)), env) == Spelled(Gep(ptr, idxs), env)
  {
    MovedChain(c, idxs, env);
    FlattenStep(ptr, idxs);
    SpelledStep(ptr, idxs, env);
  }

  lemma {:induction false} FlattenStep(ptr: Ptr, idxs: seq<Index>)
    requires idxs != []
    ensures var c := Flatten(ptr);
            Flatten(Gep(ptr, idxs)) == c[..|c| - 1] + [Add(c[|c| - 1], idxs[0])] + idxs[1..]
  {
  }

  lemma {:induction false} SpelledStep(ptr: Ptr, idxs: seq<Index>, env: Env)
    requires idxs != []
    ensures var vs := Spelled(ptr, env);
            Spelled(Gep(ptr, idxs), env) ==
            vs[..|vs| - 1] + [LastOf(vs) + idxs[0].Eval(env)] + Evals(idxs[1..], env)
  {
  }

  lemma {:induction false} MovedLast(c: seq<Index>, i: Index, env: Env)
    requires |c| > 0 && Fits(i.WidthOf(), LastOf(Evals(c, env)) + i.Eval(env))
    ensures Evals(c[..|c| - 1] + [Add(c[|c| - 1], i)], env) ==
            Evals(c, env)[..|c| - 1] + [LastOf(Evals(c, env)) + i.Eval(env)]
  {
    AddEval(c[|c| - 1], i, env);
    WrapOfFitting(i.WidthOf(), LastOf(Evals(c, env)) + i.Eval(env));
  }

  lemma {:induction false} MovedChain(c: seq<Index>, idxs: seq<Index>, env: Env)
    requires |c| > 0 && idxs != [] && Fits(idxs[0].WidthOf(), LastOf(Evals(c, env)) + idxs[0].Eval(env))
    ensures Evals(c[..|c| - 1] + [Add(c[|c| - 1], idxs[0])] + idxs[1..], env) ==
            Evals(c, env)[..|c| - 1] + [LastOf(Evals(c, env)) + idxs[0].Eval(env)] + Evals(idxs[1..], env)
  {
    MovedLast(c, idxs[0], env);
    EvalsConcat(c[..|c| - 1] + [Add(c[|c| - 1], idxs[0])], idxs[1..], env);
  }

  lemma LandedMoves(vs: seq<int>, x: int, j: int)
    requires |vs| > 0
    ensures Landed(Landed(vs, x), LastOf(Landed(vs, x)) + j) == Landed(vs, x + j)
  {
  }

  lemma {:induction false} OneMove(p: Ptr, env: Env, vs: seq<int>)
    requires OneIndex(p) && vs == Spelled(p.ptr, env)
    ensures Spelled(p, env) == Landed(vs, LastOf(vs) + p.idxs[0].Eval(env))
  {
    SpelledStep(p.ptr, p.idxs, env);
    assert p.idxs[1..] == [] && Evals([], env) == [];
  }

  /** A run adds its total to the last coordinate. */
  lemma {:induction false} SpelledRun(p: Ptr, env: Env, b: seq<int>, j: int)
    requires b == Spelled(Bottom(p), env) && j == RunTotal(p, env)
    ensures Spelled(p, env) == Landed(b, LastOf(b) + j)
    decreases p
  {
    if OneIndex(p) {
      SpelledRun(p.ptr, env, b, RunTotal(p.ptr, env));
      SpelledMoves(p, b, LastOf(b) + RunTotal(p.ptr, env), env);
    } else {
      LandedSame(b);
    }
  }

  lemma {:induction false} SpelledMoves(p: Ptr, b: seq<int>, x: int, env: Env)
    requires OneIndex(p) && |b| > 0 && Spelled(p.ptr, env) == Landed(b, x)
    ensures Spelled(p, env) == Landed(b, x + p.idxs[0].Eval(env))
  {
    OneMove(p, env, Landed(b, x));
    LandedMoves(b, x, p.idxs[0].Eval(env));
  }

  lemma {:induction false} BottomFits(p: Ptr, env: Env)
    requires MovesFit(p, env)
    ensures MovesFit(Bottom(p), env)
    decreases p
  {
    if OneIndex(p) { BottomFits(p.ptr, env); }
  }

  /** If every partial sum of a run fits, the flattened chain ends in the whole sum. */
  lemma RunAddsUp(p: Ptr, env: Env)
    requires MovesFit(p, env)
    ensures LastOf(Evals(Flatten(p), env)) == LastOf(Evals(Flatten(Bottom(p)), env)) + RunTotal(p, env)
  {
    BottomFits(p, env);
    FlattenSpells(p, env);
    FlattenSpells(Bottom(p), env);
    SpelledRun(p, env, Spelled(Bottom(p), env), RunTotal(p, env));
  }

  /** Where a run ends, the layout allows its total: always at the base and in an array; behind a struct
      field only if the field so much further is laid out so much further. */
  ghost predicate RunAllowed(tys: map<Id, Ty>, e: Ptr, env: Env) {
    e.Root() in tys &&
    var vs := Spelled(Bottom(e), env);
    RunExact(tys[e.Root()], vs, RunTotal(e, env), LastOf(vs) + RunTotal(e, env))
  }

  ghost predicate RunsAllowed(tys: map<Id, Ty>, p: Ptr, env: Env) {
    forall e | e in RunEnds(p) :: RunAllowed(tys, e, env)
  }

  lemma {:induction false} RunAllowedIff(tys: map<Id, Ty>, e: Ptr, env: Env)
    requires MovesFit(e, env)
    ensures RunExactAt(tys, e, env) <==> RunAllowed(tys, e, env)
  {
    RunAddsUp(e, env);
    BottomFits(e, env);
    FlattenSpells(Bottom(e), env);
    SameRun(tys, e, env, Evals(Flatten(e), env), Evals(Flatten(Bottom(e)), env));
  }

  lemma {:induction false} SameRun(tys: map<Id, Ty>, e: Ptr, env: Env, vs: seq<int>, bs: seq<int>)
    requires vs == Evals(Flatten(e), env) && bs == Evals(Flatten(Bottom(e)), env) && bs == Spelled(Bottom(e), env)
    requires |vs| > 0 && LastOf(vs) == LastOf(bs) + RunTotal(e, env)
    ensures RunExactAt(tys, e, env) <==> RunAllowed(tys, e, env)
  {
  }

  lemma {:induction false} RunEndsFit(p: Ptr, env: Env, e: Ptr)
    requires MovesFit(p, env) && e in RunEnds(p)
    ensures MovesFit(e, env)
    decreases Height(p), if p.Gep? then |p.idxs| else 0
  {
    if |p.idxs| == 1 {
      BottomFits(p, env);
      if e != p { RunEndsFit(Bottom(p), env, e); }
    } else {
      RunEndsFit(Gep(p.ptr, [p.idxs[0]]), env, e);
    }
  }

  /** While moved coordinates fit, the runs are exact when the layout allows what is spelled. */
  lemma RunsExactIff(tys: map<Id, Ty>, p: Ptr, env: Env)
    requires MovesFit(p, env)
    ensures RunsExact(tys, p, env) <==> RunsAllowed(tys, p, env)
  {
    forall e | e in RunEnds(p) ensures RunExactAt(tys, e, env) <==> RunAllowed(tys, e, env) {
      RunEndsFit(p, env, e);
      RunAllowedIff(tys, e, env);
    }
  }

  /** The last coordinate is at the base or in an array. */
  predicate AtElement(t: Ty, vs: seq<int>)
    requires |vs| > 0
  {
    |vs| == 1 || (Walk(t, vs[1..|vs| - 1]).Some? && Walk(t, vs[1..|vs| - 1]).value.Array?)
  }

  /** Pointers that are only moved at the base and in arrays are flattened rightly while moved coordinates
      fit. */
  lemma ElementRunsAreExact(tys: map<Id, Ty>, p: Ptr, env: Env)
    requires MovesFit(p, env)
    requires forall e | e in RunEnds(p) :: e.Root() in tys && AtElement(tys[e.Root()], Spelled(Bottom(e), env))
    ensures RunsExact(tys, p, env)
  {
    RunsExactIff(tys, p, env);
    forall e | e in RunEnds(p) ensures RunAllowed(tys, e, env) {}
  }

  /** Conditions a compiler can see: nothing is added behind a struct step, or all fields of the struct
      have one type and the sum stays inside. */
  lemma UniformRunExact(t: Ty, vs: seq<int>, j: int)
    requires |vs| > 1 && Walk(t, vs[1..|vs| - 1]).Some?
    requires var x, a := Walk(t, vs[1..|vs| - 1]).value, vs[|vs| - 1];
             x.Struct? && Steps(x, a) && (j == 0 || (Uniform(x) && Steps(x, a + j)))
    ensures RunExact(t, vs, j, vs[|vs| - 1] + j)
  {
    var x, a := Walk(t, vs[1..|vs| - 1]).value, vs[|vs| - 1];
    if j != 0 {
      UniformStructIsArray(x, a);
      UniformStructIsArray(x, a + j);
      assert x.Elem(a) == x.Elem(0) == x.Elem(a + j);
      Distribute(a, j, Size(x.Elem(0)));
    }
  }

  function C(v: int): Index {
    Const(v, W32)
  }

  /** Flattening over constants, spelled out. */
  lemma FlattenTwo(id: Id, a: int, b: int, j: int)
    requires Fits(W32, a) && Fits(W32, b) && Fits(W32, j) && Fits(W32, b + j)
    ensures Flatten(Gep(Gep(Base(id), [C(a), C(b)]), [C(j)])) == [C(a), C(b + j)]
  {
    assert Flatten(Base(id)) == [C(0)];
    assert Flatten(Gep(Base(id), [C(a), C(b)])) == [C(a), C(b)];
  }

  lemma EvalsTwo(a: int, b: int)
    requires Fits(W32, a) && Fits(W32, b)
    ensures Evals([C(a), C(b)], map[]) == [a, b] && Evals([C(a)], map[]) == [a]
  {
  }

  /** Two floats further from the first field of a struct of float, double and float lies the
      double; the flattened chain leads to the last float. */
  lemma MixedStructFails()
    ensures var s := Struct([Scalar(FloatTy), Scalar(DoubleTy), Scalar(FloatTy)]);
            var tys, p := map[0 := s], Gep(Gep(Base(0), [C(0), C(0)]), [C(2)]);
            Pointee(tys, p) == Some(Scalar(FloatTy)) && Address(tys, p, map[]) == 8 &&
            Walk(s, Evals(Flatten(p), map[])[1..]) == Pointee(tys, p) &&
            ChainAddress(s, Evals(Flatten(p), map[])) == 16
  {
    var f, d := Scalar(FloatTy), Scalar(DoubleTy);
    var s := Struct([f, d, f]);
    assert s.Elem(0) == f && s.Elem(1) == d && s.Elem(2) == f;
    assert EndOf(s, 1) == 4 && EndOf(s, 2) == 16 && PartOff(s, 2) == 16;
    FieldRun(s, 0, 2);
  }

  /** A pointer to a field of a struct, and then a number of pointees further. */
  lemma FieldRun(s: Ty, a: nat, j: nat)
    requires s.Struct? && a + j < |s.fields| < Half(W32)
    ensures var tys, p := map[0 := s], Gep(Gep(Base(0), [C(0), C(a)]), [C(j)]);
            Pointee(tys, p) == Some(s.fields[a]) && Address(tys, p, map[]) == PartOff(s, a) + j * Size(s.fields[a]) &&
            Walk(s, Evals(Flatten(p), map[])[1..]) == Some(s.fields[a + j]) &&
            ChainAddress(s, Evals(Flatten(p), map[])) == PartOff(s, a + j)
  {
    var tys, q := map[0 := s], Gep(Base(0), [C(0), C(a)]);
    var p := Gep(q, [C(j)]);
    FlattenTwo(0, 0, a, j);
    EvalsTwo(0, a + j);
    FieldAddress(s, a);
    assert [C(j)][1..] == [] && C(j).Eval(map[]) == j;
    OneIndexMoves(tys, p, map[]);
    FieldWalk(s, a + j);
    assert [0, a + j][1..] == [a + j];
  }

  lemma FieldAddress(s: Ty, a: nat)
    requires s.Struct? && a < |s.fields| < Half(W32)
    ensures var tys, q := map[0 := s], Gep(Base(0), [C(0), C(a)]);
            Pointee(tys, q) == Some(s.fields[a]) && Address(tys, q, map[]) == PartOff(s, a)
  {
    var rest := [C(a)];
    assert [C(0), C(a)][1..] == rest;
    assert C(a).Eval(map[]) == a && C(0).Eval(map[]) == 0;
    EvalsTwo(a, 0);
    FieldWalk(s, a);
    assert rest[1..] == [] && rest[0] == C(a);
    assert GepTy(s, rest) == GepTy(s.fields[a], []) == Some(s.fields[a]);
  }

  lemma FieldWalk(s: Ty, a: nat)
    requires s.Struct? && a < |s.fields|
    ensures Walk(s, [a]) == Some(s.fields[a]) && WalkOff(s, [a]) == PartOff(s, a)
  {
    assert [a][1..] == [];
  }

  lemma MixedLayout()
    ensures var f, d := Scalar(FloatTy), Scalar(DoubleTy);
            var inner := Struct([f, d, f]);
            var outer := Struct([inner, Struct([d, d]), inner]);
            PartOff(inner, 0) == 0 && PartOff(inner, 2) == 16 && Size(inner) == 24 &&
            PartOff(outer, 0) == 0 && PartOff(outer, 2) == 40
  {
    var f, d := Scalar(FloatTy), Scalar(DoubleTy);
    var inner, two := Struct([f, d, f]), Struct([d, d]);
    var outer := Struct([inner, two, inner]);
    assert inner.Elem(0) == f && inner.Elem(1) == d && inner.Elem(2) == f;
    assert EndOf(inner, 1) == 4 && EndOf(inner, 2) == 16 && EndOf(inner, 3) == 20;
    assert AlignBefore(inner, 1) == 4 && AlignBefore(inner, 2) == 8 && Align(inner) == 8;
    assert two.Elem(0) == d && two.Elem(1) == d && AlignBefore(two, 1) == 8 && Align(two) == 8;
    assert EndOf(two, 1) == 8 && EndOf(two, 2) == 16 && Size(two) == 16;
    assert outer.Elem(0) == inner && outer.Elem(1) == two && outer.Elem(2) == inner;
    assert EndOf(outer, 1) == 24 && EndOf(outer, 2) == 40;
  }

  /** Why the runs are judged one by one: two wrong runs can cancel.  With two mixed structs and 16
      bytes between them, the whole chain comes out right and a run inside it does not. */
  lemma ErrorsCancel()
    ensures var f, d := Scalar(FloatTy), Scalar(DoubleTy);
            var inner := Struct([f, d, f]);
            var tys := map[0 := Struct([inner, Struct([d, d]), inner])];
            var run := Gep(Gep(Base(0), [C(0), C(0)]), [C(2)]);
            var p := Gep(Gep(run.ptr, [C(2), C(0)]), [C(2)]);
            run in RunEnds(p) && Right(tys, p, map[]) && !Right(tys, run, map[])
  {
    var f, d := Scalar(FloatTy), Scalar(DoubleTy);
    var inner := Struct([f, d, f]);
    var outer := Struct([inner, Struct([d, d]), inner]);
    MixedLayout();
    OuterCancels(outer, inner);
    RunInside(Gep(Base(0), [C(0), C(0)]), C(2), C(0), C(2));
  }

  lemma OuterCancels(outer: Ty, inner: Ty)
    requires inner == Struct([Scalar(FloatTy), Scalar(DoubleTy), Scalar(FloatTy)])
    requires outer.Struct? && |outer.fields| == 3 && outer.fields[0] == outer.fields[2] == inner
    requires PartOff(inner, 0) == 0 && PartOff(inner, 2) == 16 && Size(inner) == 24
    requires PartOff(outer, 0) == 0 && PartOff(outer, 2) == 40
    ensures var tys, run := map[0 := outer], Gep(Gep(Base(0), [C(0), C(0)]), [C(2)]);
            Right(tys, Gep(Gep(run.ptr, [C(2), C(0)]), [C(2)]), map[]) && !Right(tys, run, map[])
  {
    var tys, run := map[0 := outer], Gep(Gep(Base(0), [C(0), C(0)]), [C(2)]);
    var p := Gep(Gep(run.ptr, [C(2), C(0)]), [C(2)]);
    WrongRun(outer, inner);
    CancelledAddress(tys, outer, inner, run);
    CancelledChain(outer, inner);
    IsRight(tys, outer, p);
  }

  lemma WrongRun(outer: Ty, inner: Ty)
    requires outer.Struct? && |outer.fields| == 3 && outer.fields[0] == outer.fields[2] == inner
    requires Size(inner) == 24 && PartOff(outer, 0) == 0 && PartOff(outer, 2) == 40
    ensures var tys, run := map[0 := outer], Gep(Gep(Base(0), [C(0), C(0)]), [C(2)]);
            Pointee(tys, run) == Some(inner) && Address(tys, run, map[]) == 48 && !Right(tys, run, map[])
  {
    FieldRun(outer, 0, 2);
    NotRight(map[0 := outer], outer, Gep(Gep(Base(0), [C(0), C(0)]), [C(2)]));
  }

  lemma NotRight(tys: map<Id, Ty>, t: Ty, p: Ptr)
    requires p.Root() in tys && tys[p.Root()] == t && Pointee(tys, p).Some?
    requires Walk(t, Evals(Flatten(p), map[])[1..]).Some?
    requires ChainAddress(t, Evals(Flatten(p), map[])) != Address(tys, p, map[])
    ensures !Right(tys, p, map[])
  {
  }

  lemma IsRight(tys: map<Id, Ty>, t: Ty, p: Ptr)
    requires p.Root() in tys && tys[p.Root()] == t && Pointee(tys, p).Some?
    requires Walk(t, Evals(Flatten(p), map[])[1..]) == Pointee(tys, p)
    requires ChainAddress(t, Evals(Flatten(p), map[])) == Address(tys, p, map[])
    ensures Right(tys, p, map[])
  {
  }

  lemma RunInside(q: Ptr, i: Index, k: Index, j: Index)
    ensures Gep(q, [i]) in RunEnds(Gep(Gep(q, [i, k]), [j]))
  {
    var run, mid := Gep(q, [i]), Gep(q, [i, k]);
    var p := Gep(mid, [j]);
    assert Bottom(p) == mid;
    assert RunEnds(p) == RunEnds(mid) + [p];
    assert RunEnds(mid) == RunEnds(run);
    var ends := RunEnds(Bottom(run)) + [run];
    assert RunEnds(run) == ends && ends[|ends| - 1] == run;
  }

  lemma CancelledAddress(tys: map<Id, Ty>, outer: Ty, inner: Ty, run: Ptr)
    requires run == Gep(Gep(Base(0), [C(0), C(0)]), [C(2)]) && Pointee(tys, run) == Some(inner)
    requires Address(tys, run, map[]) == 48
    requires inner == Struct([Scalar(FloatTy), Scalar(DoubleTy), Scalar(FloatTy)]) && PartOff(inner, 0) == 0
    ensures var p := Gep(Gep(run.ptr, [C(2), C(0)]), [C(2)]);
            Pointee(tys, p) == Some(Scalar(FloatTy)) && Address(tys, p, map[]) == 56
  {
    var mid := Gep(run.ptr, [C(2), C(0)]);
    var p := Gep(mid, [C(2)]);
    OneIndexMoves(tys, run, map[]);
    EvalsTwo(0, 0);
    FieldWalk(inner, 0);
    var rest := [C(0)];
    assert [C(2), C(0)][1..] == rest && rest[1..] == [];
    assert GepTy(inner, rest) == GepTy(inner.fields[0], []);
    assert Pointee(tys, mid) == Some(Scalar(FloatTy)) && Address(tys, mid, map[]) == 48;
    assert [C(2)][1..] == [];
    OneIndexMoves(tys, p, map[]);
  }

  lemma CancelledChain(outer: Ty, inner: Ty)
    requires inner == Struct([Scalar(FloatTy), Scalar(DoubleTy), Scalar(FloatTy)]) && PartOff(inner, 2) == 16
    requires outer.Struct? && |outer.fields| == 3 && outer.fields[2] == inner && PartOff(outer, 2) == 40
    ensures var p := Gep(Gep(Gep(Base(0), [C(0), C(0)]), [C(2), C(0)]), [C(2)]);
            var vs := Evals(Flatten(p), map[]);
            Walk(outer, vs[1..]) == Some(Scalar(FloatTy)) && ChainAddress(outer, vs) == 56
  {
    FlattenThree();
    TwoFields(outer, 2, 2);
    assert [0, 2, 2][1..] == [2, 2];
  }

  lemma FlattenThree()
    ensures Evals(Flatten(Gep(Gep(Gep(Base(0), [C(0), C(0)]), [C(2), C(0)]), [C(2)])), map[]) == [0, 2, 2]
  {
    var q := Gep(Base(0), [C(0), C(0)]);
    var mid := Gep(q, [C(2), C(0)]);
    var p := Gep(mid, [C(2)]);
    FlattenTwo(0, 0, 0, 2);
    assert Flatten(mid) == [C(0), C(2), C(0)];
    assert Flatten(p) == [C(0), C(2), C(2)];
  }

  lemma TwoFields(s: Ty, a: nat, b: nat)
    requires s.Struct? && a < |s.fields| && s.fields[a].Struct? && b < |s.fields[a].fields|
    ensures Walk(s, [a, b]) == Some(s.fields[a].fields[b])
    ensures WalkOff(s, [a, b]) == PartOff(s, a) + PartOff(s.fields[a], b)
  {
    FieldWalk(s.fields[a], b);
    assert [a, b][1..] == [b];
  }
}
