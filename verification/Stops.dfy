/** Which accesses stop the rewriting.  The escape analysis looks at how an object is used, not at the
    types on the way, so an accepted object can still have an access that stops the pass.
 */
module Stops {
  import opened Types
  import opened Layout
  import opened Indices
  import opened Wrappers
  import opened Expansion
  import opened GepChain
  import opened LeafIndex
  import opened Disaggregation

  /** On the way to `p` an index that is not constant selects a field of a struct whose fields differ. */
  predicate DynamicIntoMixed(t: Ty, chain: seq<Index>, p: Path)
    requires ValidPath(t, p) && |chain| == |p|
    decreases p
  {
    p != [] &&
    ((t.Struct? && !chain[0].Const? && !Uniform(t)) || DynamicIntoMixed(t.Elem(p[0]), chain[1..], p[1..]))
  }

  /** The leaf number can be computed exactly when no such index is on the way. */
  lemma {:induction false} IdxSumIff(t: Ty, chain: seq<Index>, env: Env, p: Path)
    requires ValidPath(t, p) && Evals(chain, env) == p
    ensures IdxSum(t, chain).Ok? <==> !DynamicIntoMixed(t, chain, p)
    decreases p
  {
    if p != [] {
      assert chain[0].Eval(env) == p[0];
      assert Evals(chain[1..], env) == p[1..];
      IdxSumIff(t.Elem(p[0]), chain[1..], env, p[1..]);
    }
  }

  lemma ConstantIsFixed(t: Ty, chain: seq<Index>, p: Path)
    requires ValidPath(t, p) && |chain| == |p| && AllConst(chain)
    ensures !DynamicIntoMixed(t, chain, p)
    decreases p
  {
    if p != [] {
      assert chain[0].Const? && forall i: nat :: i < |chain[1..]| ==> chain[1..][i] == chain[i + 1];
      ConstantIsFixed(t.Elem(p[0]), chain[1..], p[1..]);
    }
  }

  /** An access that is in bounds stops the pass exactly when its object is expanded and an index that is
      not constant selects a field of a struct whose fields differ. */
  lemma StopsIff(tys: Objects, h: Table, ptr: Ptr, env: Env, p: Path)
    requires Ready(tys, h) && InBounds(tys, ptr, env, p)
    ensures |Flatten(ptr)[1..]| == |p|
    ensures !Rewritable(tys, h, ptr) <==>
            ptr.Root() in h.kids && DynamicIntoMixed(tys[ptr.Root()], Flatten(ptr)[1..], p)
  {
    var r, chain := ptr.Root(), Flatten(ptr)[1..];
    InBoundsFlat(tys, ptr, env, p);
    if AllConst(chain) {
      ConstEvals(chain, env);
      ConstantIsFixed(tys[r], chain, p);
      if r in h.kids { ConstantChainResolves(h, r, p); }
    } else {
      IdxSumIff(tys[r], chain, env, p);
    }
  }

  /** The access reaches a scalar in some run, and this is where. */
  ghost predicate Reachable(tys: Objects, i: Instr) {
    IsAccess(i) ==> exists env, p :: InBounds(tys, i.ptr, env, p)
  }

  /** The access is to an expanded object, through an index that selects among fields that differ. */
  ghost predicate StoppedAccess(tys: Objects, h: Table, i: Instr) {
    IsAccess(i) && i.ptr.Root() in h.kids && exists env, p :: MixedAccess(tys, i.ptr, env, p)
  }

  ghost predicate MixedAccess(tys: Objects, ptr: Ptr, env: Env, p: Path) {
    InBounds(tys, ptr, env, p) && |Flatten(ptr)[1..]| == |p| &&
    DynamicIntoMixed(tys[ptr.Root()], Flatten(ptr)[1..], p)
  }

  lemma StoppedIff(tys: Objects, h: Table, i: Instr)
    requires Ready(tys, h) && IsAccess(i) && Reachable(tys, i)
    requires Pointee(tys, i.ptr).Some? && i.ptr.Root() in tys
    ensures !Rewritable(tys, h, i.ptr) <==> StoppedAccess(tys, h, i)
  {
    var env, p :| InBounds(tys, i.ptr, env, p);
    StopsIff(tys, h, i.ptr, env, p);
    if !Rewritable(tys, h, i.ptr) { assert MixedAccess(tys, i.ptr, env, p); }
    if StoppedAccess(tys, h, i) {
      var e, q :| MixedAccess(tys, i.ptr, e, q);
      StopsIff(tys, h, i.ptr, e, q);
    }
  }

  ghost predicate AllReachable(tys: Objects, prog: seq<Block<Instr>>) {
    forall l: nat, k: nat :: l < |prog| && k < |prog[l].body| ==> Reachable(tys, prog[l].body[k])
  }

  /** A program whose accesses can all be in bounds is rewritten, whichever objects were accepted, exactly
      when no access to an expanded object selects dynamically among fields that differ. */
  lemma ProgramStopsIff(tys: Objects, h: Table, prog: seq<Block<Instr>>)
    requires Ready(tys, h) && TypedProgram(tys, prog) && AllReachable(tys, prog)
    ensures RewritableProgram(tys, h, prog) <==>
            forall l: nat, k: nat :: l < |prog| && k < |prog[l].body| ==> !StoppedAccess(tys, h, prog[l].body[k])
  {
    forall l: nat, k: nat | l < |prog| && k < |prog[l].body|
      ensures IsAccess(prog[l].body[k]) ==>
                (Rewritable(tys, h, prog[l].body[k].ptr) <==> !StoppedAccess(tys, h, prog[l].body[k]))
    {
      if IsAccess(prog[l].body[k]) {
        assert TypedBlock(tys, prog[l]);
        assert Reachable(tys, prog[l].body[k]);
        StoppedIff(tys, h, prog[l].body[k]);
      }
    }
  }

  /** A pointer to the first of two fields that differ, moved by a register: when the register is zero it
      is in bounds, and the pass stops on it. */
  lemma MovedFieldStops(h: Table)
    requires Ready(map[0 := Struct([Scalar(FloatTy), Scalar(DoubleTy)])], h) && 0 in h.kids
    ensures var tys := map[0 := Struct([Scalar(FloatTy), Scalar(DoubleTy)])];
            var ptr := Gep(Gep(Base(0), [C(0), C(0)]), [Reg(0, W32)]);
            InBounds(tys, ptr, map[], [0]) && !Rewritable(tys, h, ptr)
  {
    var s := Struct([Scalar(FloatTy), Scalar(DoubleTy)]);
    var tys := map[0 := s];
    var ptr := Gep(Gep(Base(0), [C(0), C(0)]), [Reg(0, W32)]);
    MovedField(tys, s, ptr);
    MovedFlat(ptr);
    StopsIff(tys, h, ptr, map[], [0]);
    assert s.Elem(0) != s.Elem(1);
  }

  lemma {:induction false} MovedField(tys: Objects, s: Ty, ptr: Ptr)
    requires s == Struct([Scalar(FloatTy), Scalar(DoubleTy)]) && tys == map[0 := s]
    requires ptr == Gep(Gep(Base(0), [C(0), C(0)]), [Reg(0, W32)])
    ensures InBounds(tys, ptr, map[], [0])
  {
    var q, low := Gep(Base(0), [C(0), C(0)]), Gep(Base(0), [C(0)]);
    MovedSpelled(q, low, ptr);
    MovedTyped(tys, s, q, ptr);
    MovedRuns(q, low, ptr);
    StaysInPlace(s);
    FirstField(s);
    TwoRunsAllowed(tys, s, low, ptr, [0], [0, 0]);
  }

  lemma {:induction false} TwoRunsAllowed(tys: Objects, s: Ty, low: Ptr, ptr: Ptr, vs: seq<int>, ws: seq<int>)
    requires ptr.Root() == low.Root() && ptr.Root() in tys && tys[ptr.Root()] == s && RunEnds(ptr) == [low, ptr]
    requires Spelled(Bottom(low), map[]) == vs && RunTotal(low, map[]) == 0 && RunExact(s, vs, 0, LastOf(vs))
    requires Spelled(Bottom(ptr), map[]) == ws && RunTotal(ptr, map[]) == 0 && RunExact(s, ws, 0, LastOf(ws))
    ensures RunsAllowed(tys, ptr, map[])
  {
    assert RunAllowed(tys, low, map[]) && RunAllowed(tys, ptr, map[]);
  }

  lemma {:induction false} StaysInPlace(s: Ty)
    requires s.Struct? && |s.fields| > 0
    ensures RunExact(s, [0], 0, 0) && RunExact(s, [0, 0], 0, 0)
  {
    assert [0, 0][1..1] == [] && Walk(s, []) == Some(s);
  }

  lemma {:induction false} FirstField(s: Ty)
    requires s == Struct([Scalar(FloatTy), Scalar(DoubleTy)])
    ensures ScalarPath(s, [0]) && [0] + [0] == [0, 0]
  {
    assert s.Elem(0) == Scalar(FloatTy) && [0][1..] == [];
  }

  lemma {:induction false} MovedSpelled(q: Ptr, low: Ptr, ptr: Ptr)
    requires q == Gep(Base(0), [C(0), C(0)]) && low == Gep(Base(0), [C(0)]) && ptr == Gep(q, [Reg(0, W32)])
    ensures Spelled(Base(0), map[]) == [0] && Spelled(low, map[]) == [0]
    ensures Spelled(q, map[]) == [0, 0] && Spelled(ptr, map[]) == [0, 0]
    ensures MovesFit(ptr, map[]) && low.Root() == ptr.Root() == 0
  {
    assert [C(0), C(0)][1..] == [C(0)];
    assert Spelled(q, map[]) == [0] + Evals([C(0)], map[]);
  }

  lemma {:induction false} MovedFlat(ptr: Ptr)
    requires ptr == Gep(Gep(Base(0), [C(0), C(0)]), [Reg(0, W32)])
    ensures Flatten(ptr) == [C(0), Sum(C(0), Reg(0, W32))]
  {
    assert Flatten(Base(0)) == [C(0)];
    assert [C(0), C(0)][1..] == [C(0)];
    assert Flatten(ptr.ptr) == [C(0), C(0)];
  }

  lemma {:induction false} MovedTyped(tys: Objects, s: Ty, q: Ptr, ptr: Ptr)
    requires s == Struct([Scalar(FloatTy), Scalar(DoubleTy)]) && tys == map[0 := s]
    requires q == Gep(Base(0), [C(0), C(0)]) && ptr == Gep(q, [Reg(0, W32)])
    ensures Pointee(tys, ptr) == Pointee(tys, q) == Some(Scalar(FloatTy)) && ptr.Root() == q.Root() == 0
  {
    assert [C(0), C(0)][1..] == [C(0)] && [C(0)][1..] == [] && C(0).Eval(map[]) == 0;
    assert GepTy(s, [C(0)]) == Some(Scalar(FloatTy));
  }

  lemma {:induction false} MovedRuns(q: Ptr, low: Ptr, ptr: Ptr)
    requires q == Gep(Base(0), [C(0), C(0)]) && low == Gep(Base(0), [C(0)]) && ptr == Gep(q, [Reg(0, W32)])
    ensures Bottom(ptr) == q && Bottom(low) == Base(0) && RunEnds(ptr) == [low, ptr]
    ensures RunTotal(ptr, map[]) == 0 && RunTotal(low, map[]) == 0
  {
    assert RunEnds(Base(0)) == [];
    assert RunEnds(low) == [low];
    assert RunEnds(q) == [low];
  }

  /** An element of an array, moved by one more than a register says: with 1 in the register the access is
      in bounds and goes to element 2, eight bytes in, and so does the flattened chain. */
  lemma MovedElement()
    ensures var tys := map[0 := Array(4, Scalar(IntTy(32)))];
            var ptr := Gep(Gep(Base(0), [C(0), Reg(0, W32)]), [C(1)]);
            InBounds(tys, ptr, map[0 := 1], [2]) && Address(tys, ptr, map[0 := 1]) == 8 &&
            Flatten(ptr) == [C(0), Sum(Reg(0, W32), C(1))] && Evals(Flatten(ptr), map[0 := 1]) == [0, 2]
  {
    var tys := map[0 := Array(4, Scalar(IntTy(32)))];
    var ptr := Gep(Gep(Base(0), [C(0), Reg(0, W32)]), [C(1)]);
    ElementSpelled(ptr);
    ElementInBounds(tys, ptr);
    ElementAddress(tys, ptr);
  }

  lemma {:induction false} ElementSpelled(ptr: Ptr)
    requires ptr == Gep(Gep(Base(0), [C(0), Reg(0, W32)]), [C(1)])
    ensures Spelled(Base(0), map[0 := 1]) == [0] && Spelled(ptr.ptr, map[0 := 1]) == [0, 1]
    ensures Spelled(ptr, map[0 := 1]) == [0, 2] && MovesFit(ptr, map[0 := 1])
    ensures Flatten(ptr) == [C(0), Sum(Reg(0, W32), C(1))] && Evals(Flatten(ptr), map[0 := 1]) == [0, 2]
  {
    assert [C(0), Reg(0, W32)][1..] == [Reg(0, W32)];
    assert Spelled(ptr.ptr, map[0 := 1]) == [0] + Evals([Reg(0, W32)], map[0 := 1]);
    assert Flatten(Base(0)) == [C(0)];
    assert Flatten(ptr.ptr) == [C(0), Reg(0, W32)];
    FlattenSpells(ptr, map[0 := 1]);
  }

  lemma {:induction false} ElementInBounds(tys: Objects, ptr: Ptr)
    requires tys == map[0 := Array(4, Scalar(IntTy(32)))]
    requires ptr == Gep(Gep(Base(0), [C(0), Reg(0, W32)]), [C(1)])
    requires Spelled(Base(0), map[0 := 1]) == [0] && Spelled(ptr.ptr, map[0 := 1]) == [0, 1]
    requires Spelled(ptr, map[0 := 1]) == [0, 2] && MovesFit(ptr, map[0 := 1])
    ensures InBounds(tys, ptr, map[0 := 1], [2])
  {
    var q, low, a := ptr.ptr, Gep(Base(0), [C(0)]), tys[0];
    ElementTyped(tys, q, ptr);
    ElementRuns(q, low, ptr);
    assert [0, 1][1..1] == [] && Walk(a, []) == Some(a);
    assert ScalarPath(a, [2]) by { assert [2][1..] == [] && a.Elem(2) == Scalar(IntTy(32)); }
    assert RunAllowed(tys, low, map[0 := 1]) && RunAllowed(tys, ptr, map[0 := 1]);
  }

  lemma {:induction false} ElementTyped(tys: Objects, q: Ptr, ptr: Ptr)
    requires tys == map[0 := Array(4, Scalar(IntTy(32)))]
    requires q == Gep(Base(0), [C(0), Reg(0, W32)]) && ptr == Gep(q, [C(1)])
    ensures Pointee(tys, ptr) == Pointee(tys, q) == Some(Scalar(IntTy(32))) && ptr.Root() == q.Root() == 0
  {
    assert [C(0), Reg(0, W32)][1..] == [Reg(0, W32)] && [Reg(0, W32)][1..] == [] && [C(1)][1..] == [];
    assert GepTy(tys[0], [Reg(0, W32)]) == Some(Scalar(IntTy(32)));
  }

  lemma {:induction false} ElementRuns(q: Ptr, low: Ptr, ptr: Ptr)
    requires q == Gep(Base(0), [C(0), Reg(0, W32)]) && low == Gep(Base(0), [C(0)]) && ptr == Gep(q, [C(1)])
    ensures Bottom(ptr) == q && Bottom(low) == Base(0) && RunEnds(ptr) == [low, ptr] && low.Root() == 0
  {
    assert RunEnds(Base(0)) == [];
    assert RunEnds(low) == [low];
    assert RunEnds(q) == [low];
  }

  lemma {:induction false} ElementAddress(tys: Objects, ptr: Ptr)
    requires tys == map[0 := Array(4, Scalar(IntTy(32)))]
    requires ptr == Gep(Gep(Base(0), [C(0), Reg(0, W32)]), [C(1)])
    ensures Pointee(tys, ptr).Some? && Address(tys, ptr, map[0 := 1]) == 8
  {
    var q, e, a, t := ptr.ptr, map[0 := 1], tys[0], Scalar(IntTy(32));
    ElementTyped(tys, q, ptr);
    ElementSize();
    assert q.idxs[1..] == [Reg(0, W32)] && Evals(q.idxs[1..], e) == [1] && [1][1..] == [];
    assert Walk(a, [1]).Some? && WalkOff(a, [1]) == 4;
    assert Pointee(tys, Base(0)) == Some(a) && Address(tys, Base(0), e) == 0;
    assert Address(tys, q, e) == 0 * Size(a) + WalkOff(a, Evals(q.idxs[1..], e));
    assert ptr.idxs[1..] == [] && Evals(ptr.idxs[1..], e) == [];
    assert Address(tys, ptr, e) == Address(tys, q, e) + 1 * Size(t) + WalkOff(t, []);
  }

  lemma ElementSize()
    ensures Size(Scalar(IntTy(32))) == 4
  {
    assert IntBytes(32, 1) == IntBytes(32, 2) == IntBytes(32, 4) == 4;
  }
}
