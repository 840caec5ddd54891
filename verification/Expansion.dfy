/** Expansion trees: which scalar variables replace an aggregate variable.

    A variable is an alloca or a global.  Expanding an aggregate variable creates one new
    variable a part, records the new variables in an expansion map in part order, and goes on
    with the new variables.  The new variable is named after its parent and the part number,
    so a variable's name is the variable it descends from and a path.
 */
module Expansion {
  import opened Types
  import opened Values
  import opened Wrappers

  datatype Var = Var(ty: Ty, root: Id, path: Path)

  /** All variables, and the expansion map. */
  datatype Table = Table(vars: map<Id, Var>, kids: map<Id, seq<Id>>)

  /** The recorded new variables are named and typed after the parts they stand for. */
  ghost predicate Linked(h: Table, a: Id) {
    a in h.kids ==>
      a in h.vars && |h.kids[a]| <= h.vars[a].ty.Arity() &&
      forall i: nat :: i < |h.kids[a]| ==>
        h.kids[a][i] in h.vars &&
        h.vars[h.kids[a][i]] == Var(h.vars[a].ty.Elem(i), h.vars[a].root, h.vars[a].path + [i])
  }

  ghost predicate AllLinked(h: Table) {
    forall a | a in h.kids :: Linked(h, a)
  }

  /** `a` is fully expanded one level down; a variable without parts is not in the map. */
  ghost predicate Complete(h: Table, a: Id)
    requires a in h.vars
  {
    (a in h.kids <==> h.vars[a].ty.Arity() > 0) &&
    (a in h.kids ==> |h.kids[a]| == h.vars[a].ty.Arity())
  }

  ghost predicate IsRoot(h: Table, r: Id) {
    r in h.vars && h.vars[r].root == r && h.vars[r].path == []
  }

  /** Every variable is fully expanded, except roots that were left alone. */
  ghost predicate WellExpanded(h: Table) {
    AllLinked(h) &&
    forall a | a in h.vars :: Complete(h, a) || (IsRoot(h, a) && a !in h.kids)
  }

  /** A root that was expanded. */
  ghost predicate Expanded(h: Table, r: Id) {
    WellExpanded(h) && IsRoot(h, r) && r in h.kids
  }

  /** The variable that replaces the part of `a` at `p`. */
  function Resolve(h: Table, a: Id, p: Path): (b: Id)
    requires WellExpanded(h) && a in h.vars && Complete(h, a) && ValidPath(h.vars[a].ty, p)
    ensures b in h.vars && Complete(h, b)
    ensures h.vars[b] == Var(SubTy(h.vars[a].ty, p), h.vars[a].root, h.vars[a].path + p)
    decreases p
  {
    if p == [] then
      assert h.vars[a].path + p == h.vars[a].path;
      a
    else
      assert Linked(h, a);
      var k := h.kids[a][p[0]];
      assert (h.vars[a].path + [p[0]]) + p[1..] == h.vars[a].path + p by { assert p == [p[0]] + p[1..]; }
      assert !IsRoot(h, k) by { assert |h.vars[k].path| > 0; }
      Resolve(h, k, p[1..])
  }

  /** Different parts of different roots are replaced by different variables. */
  lemma ResolveInjective(h: Table, r: Id, p: Path, s: Id, q: Path)
    requires Expanded(h, r) && ValidPath(h.vars[r].ty, p)
    requires Expanded(h, s) && ValidPath(h.vars[s].ty, q)
    requires Resolve(h, r, p) == Resolve(h, s, q)
    ensures r == s && p == q
  {
    assert h.vars[Resolve(h, r, p)].path == p && h.vars[Resolve(h, s, q)].path == q;
  }

  /** The recorded part of a resolved variable is the variable that the longer path resolves to. */
  lemma {:induction false} KidResolves(h: Table, a: Id, p: Path, i: nat)
    requires WellExpanded(h) && a in h.vars && Complete(h, a) && ValidPath(h.vars[a].ty, p)
    requires i < SubTy(h.vars[a].ty, p).Arity()
    ensures ValidPath(h.vars[a].ty, p + [i]) && Resolve(h, a, p) in h.kids && i < |h.kids[Resolve(h, a, p)]|
    ensures h.kids[Resolve(h, a, p)][i] == Resolve(h, a, p + [i])
    decreases p
  {
    assert Linked(h, a);
    if p == [] {
      assert p + [i] == [i] && [i][1..] == [];
    } else {
      var k := h.kids[a][p[0]];
      assert !IsRoot(h, k) by { assert |h.vars[k].path| > 0; }
      assert (p + [i])[1..] == p[1..] + [i];
      KidResolves(h, k, p[1..], i);
    }
  }

  /** Whatever way two expansions of the same type were made, by recursion or with a worklist, they
      are the same ordered tree: at every path the same type with the same parts, each recorded
      in its place. */
  lemma ExpansionsAgree(h: Table, r: Id, g: Table, s: Id, p: Path, i: nat)
    requires Expanded(h, r) && Expanded(g, s) && h.vars[r].ty == g.vars[s].ty && ValidPath(h.vars[r].ty, p)
    ensures var a, b := Resolve(h, r, p), Resolve(g, s, p);
            h.vars[a].ty == g.vars[b].ty && h.vars[a].path == g.vars[b].path == p &&
            (a in h.kids <==> b in g.kids) && (a in h.kids ==> |h.kids[a]| == |g.kids[b]|)
    ensures var a, b := Resolve(h, r, p), Resolve(g, s, p);
            a in h.kids && i < |h.kids[a]| ==>
            ValidPath(h.vars[r].ty, p + [i]) &&
            h.kids[a][i] == Resolve(h, r, p + [i]) && g.kids[b][i] == Resolve(g, s, p + [i])
  {
    if i < SubTy(h.vars[r].ty, p).Arity() {
      KidResolves(h, r, p, i);
      KidResolves(g, s, p, i);
    }
  }

  /** Follow a list of constant indices through the expansion map. */
  function GetElementAtIdx(h: Table, a: Id, chain: seq<int>): Result<Id>
    decreases chain
  {
    if chain == [] then Ok(a)
    else if a !in h.kids then Err(NoExpansion)
    else if !(0 <= chain[0] < |h.kids[a]|) then Err(IndexOutOfRange)
    else GetElementAtIdx(h, h.kids[a][chain[0]], chain[1..])
  }

  /** A constant chain is resolved exactly when it is a path of the type. */
  lemma {:induction false} ConstantChainResolves(h: Table, a: Id, chain: seq<int>)
    requires WellExpanded(h) && a in h.vars && Complete(h, a)
    ensures GetElementAtIdx(h, a, chain).Ok? <==>
            (forall i :: 0 <= i < |chain| ==> chain[i] >= 0) && ValidPath(h.vars[a].ty, chain)
    ensures GetElementAtIdx(h, a, chain).Ok? ==> GetElementAtIdx(h, a, chain).value == Resolve(h, a, chain)
    decreases chain
  {
    if chain != [] && a in h.kids && 0 <= chain[0] < |h.kids[a]| {
      assert Linked(h, a);
      var k := h.kids[a][chain[0]];
      assert !IsRoot(h, k) by { assert |h.vars[k].path| > 0; }
      ConstantChainResolves(h, k, chain[1..]);
      assert forall i :: 1 <= i < |chain| ==> chain[i] == chain[1..][i - 1];
    }
  }

  /** List the unexpanded variables below `a`, each with its type and its chain of indices. */
  method ExpandTypes(h: Table, a: Id, out: seq<LeafEntry>, idxChain: Path) returns (r: seq<LeafEntry>)
    requires WellExpanded(h) && a in h.vars && Complete(h, a)
    ensures r == out + Prefixed(idxChain, Leaves(h.vars[a].ty))
    decreases h.vars[a].ty
  {
    var ty := h.vars[a].ty;
    if a in h.kids && h.kids[a] != [] {
      assert Linked(h, a);
      var subelements := h.kids[a];
      r := out;
      for i := 0 to |subelements|
        invariant r == out + Prefixed(idxChain, LeavesBefore(ty, i))
      {
        var k := subelements[i];
        assert !IsRoot(h, k) by { assert |h.vars[k].path| > 0; }
        r := ExpandTypes(h, k, r, idxChain + [i]);
        NextPartListed(ty, i, idxChain, out);
      }
    } else {
      r := out + [(ty, idxChain)];
      assert Prefixed(idxChain, Leaves(ty)) == [(ty, idxChain)] by { assert idxChain + [] == idxChain; }
    }
  }

  lemma NextPartListed(t: Ty, i: nat, chain: Path, out: seq<LeafEntry>)
    requires i < t.Arity()
    ensures (out + Prefixed(chain, LeavesBefore(t, i))) + Prefixed(chain + [i], Leaves(t.Elem(i)))
         == out + Prefixed(chain, LeavesBefore(t, i + 1))
  {
    var inner := Leaves(t.Elem(i));
    forall k | 0 <= k < |inner| ensures chain + ([i] + inner[k].1) == (chain + [i]) + inner[k].1 {}
    assert Prefixed(chain, LeavesBefore(t, i + 1)) ==
           Prefixed(chain, LeavesBefore(t, i)) + Prefixed(chain + [i], inner);
  }

  /** What expanding `a` does to a table: older variables keep their entries, and everything
      new is fully expanded. */
  ghost predicate Grown(before: Table, after: Table, a: Id) {
    (forall x | x in before.vars :: x in after.vars && after.vars[x] == before.vars[x]) &&
    (forall x | x in before.vars && x != a :: (x in after.kids <==> x in before.kids) &&
       (x in after.kids ==> after.kids[x] == before.kids[x])) &&
    forall x | x in after.vars && x !in before.vars :: after.vars[x].path != [] && Complete(after, x)
  }

  /** `after` is `before` with one more new variable for `a`. */
  ghost predicate PartAdded(before: Table, after: Table, a: Id, elt: Id, part: Var) {
    elt !in before.vars && elt != a && part.path != [] &&
    after.vars == before.vars[elt := part] &&
    elt !in after.kids &&
    after.kids == before.kids[a := (if a in before.kids then before.kids[a] else []) + [elt]]
  }

  /** How many parts of `a` have a variable so far. */
  function Made(h: Table, a: Id): nat {
    if a in h.kids then |h.kids[a]| else 0
  }

  lemma PartKeepsLinks(before: Table, after: Table, a: Id, elt: Id)
    requires AllLinked(before) && a in before.vars && Made(before, a) < before.vars[a].ty.Arity()
    requires elt !in before.vars && elt != a
    requires var v, i := before.vars[a], Made(before, a);
             PartAdded(before, after, a, elt, Var(v.ty.Elem(i), v.root, v.path + [i]))
    ensures AllLinked(after) && Made(after, a) == Made(before, a) + 1
  {
    forall x | x in after.kids ensures Linked(after, x) {
      if x in before.kids { assert Linked(before, x); }
    }
  }

  lemma GrownByPart(t0: Table, t1: Table, t2: Table, t3: Table, a: Id, elt: Id, part: Var)
    requires a in t0.vars && Grown(t0, t1, a) && PartAdded(t1, t2, a, elt, part)
    requires Grown(t2, t3, elt) && elt in t3.vars && Complete(t3, elt)
    ensures Grown(t0, t3, a)
    ensures a in t3.kids && t3.kids[a] == t2.kids[a]
  {
    forall x | x in t3.vars && x !in t0.vars ensures t3.vars[x].path != [] && Complete(t3, x) {
      if x in t1.vars { assert Complete(t1, x); }
    }
  }

  // ----- expansion of allocas: recursion, one new variable at a time -----

  class AllocaExpander {
    ghost const roots: set<Id>    // the variables of the program
    const bound: Id               // new variables are numbered from here
    var vars: map<Id, Var>
    var kids: map<Id, seq<Id>>
    var next: Id

    function T(): Table
      reads this
    {
      Table(vars, kids)
    }

    ghost predicate Valid()
      reads this
    {
      bound <= next && (forall a | a in vars :: a < next && (a in roots || bound <= a) && vars[a].root in roots) && AllLinked(T())
    }

    constructor (roots: map<Id, Ty>, bound: Id)
      requires forall r | r in roots :: r < bound
      ensures Valid() && kids == map[] && forall r | r in roots :: IsRoot(T(), r) && vars[r].ty == roots[r]
      ensures vars.Keys == roots.Keys == this.roots && this.bound == bound
    {
      this.roots, this.bound := roots.Keys, bound;
      vars := map r | r in roots :: Var(roots[r], r, []);
      kids := map[];
      next := bound;
    }

    /** Create the variable for the next part of `a`. */
    method AddPart(a: Id) returns (elt: Id)
      requires Valid() && a in vars && Made(T(), a) < vars[a].ty.Arity()
      modifies this
      ensures Valid() && elt in vars && elt !in kids && a in vars && a in kids
      ensures vars[a] == old(vars[a]) && Made(T(), a) == old(Made(T(), a)) + 1
      ensures vars[elt].ty == vars[a].ty.Elem(old(Made(T(), a))) && PartAdded(old(T()), T(), a, elt, vars[elt])
    {
      var parts := if a in kids then kids[a] else [];
      elt := next;
      assert elt !in kids by { assert forall x | x in kids :: Linked(T(), x); }
      ghost var before := T();
      vars := vars[elt := Var(vars[a].ty.Elem(|parts|), vars[a].root, vars[a].path + [|parts|])];
      next := next + 1;
      kids := kids[a := parts + [elt]];
      PartKeepsLinks(before, T(), a, elt);
    }

    method ExpandAlloca(a: Id)
      requires Valid() && a in vars && a !in kids
      modifies this
      ensures Valid() && Grown(old(T()), T(), a) && Complete(T(), a)
      decreases vars[a].ty
    {
      var ty := vars[a].ty;
      ghost var t0 := T();
      for i := 0 to ty.Arity()
        invariant Valid() && a in vars && vars[a].ty == ty && Grown(t0, T(), a)
        invariant a in kids <==> i > 0
        invariant a in kids ==> |kids[a]| == i
      {
        ghost var t1 := T();
        var elt := AddPart(a);
        ghost var t2 := T();
        ExpandAlloca(elt);
        GrownByPart(t0, t1, t2, T(), a, elt, t2.vars[elt]);
      }
    }

    /** Expand every root for which the analysis said so. */
    method ExpandAllocas(roots: seq<Id>)
      requires Valid() && kids == map[] && forall a | a in vars :: IsRoot(T(), a)
      requires forall i: nat :: i < |roots| ==> roots[i] in vars
      requires forall i: nat, j: nat :: i < j < |roots| ==> roots[i] != roots[j]
      modifies this
      ensures Valid() && WellExpanded(T())
      ensures forall r | r in old(vars) :: r in vars && vars[r] == old(vars[r])
      ensures forall i: nat :: i < |roots| ==> Complete(T(), roots[i])
      ensures forall r | r in old(vars) && r !in roots :: r !in kids
    {
      for n := 0 to |roots|
        invariant Valid()
        invariant forall r | r in old(vars) :: r in vars && vars[r] == old(vars[r])
        invariant forall x | x in vars && x !in old(vars) :: vars[x].path != [] && Complete(T(), x)
        invariant forall i: nat :: i < n ==> Complete(T(), roots[i])
        invariant forall r | r in old(vars) && r !in roots[..n] :: r !in kids
      {
        ghost var before := T();
        ExpandAlloca(roots[n]);
        assert roots[..n + 1] == roots[..n] + [roots[n]];
        forall i: nat | i < n + 1 ensures Complete(T(), roots[i]) {
          if i < n { assert roots[i] != roots[n]; assert Complete(before, roots[i]); }
        }
      }
      assert roots[..|roots|] == roots;
    }
  }

  // ----- expansion of globals: a worklist that is inserted into while it is scanned -----

  /** Every variable is fully expanded but those that wait, are being expanded or are set aside. */
  ghost predicate Progress(h: Table, pending: seq<Id>, tys: seq<Ty>, aside: set<Id>, busy: set<Id>) {
    |pending| == |tys| &&
    (forall i: nat :: i < |pending| ==>
      pending[i] in h.vars && pending[i] !in h.kids && h.vars[pending[i]].ty == tys[i] && pending[i] !in aside) &&
    (forall i: nat, j: nat :: i < j < |pending| ==> pending[i] != pending[j]) &&
    (forall x | x in h.vars && x !in pending && x !in aside && x !in busy :: Complete(h, x)) &&
    (forall x | x in busy :: x in h.vars && x !in pending && x !in aside) &&
    forall r | r in aside :: IsRoot(h, r) && r !in h.kids
  }

  lemma ProgressPart(h1: Table, h2: Table, g: Id, elt: Id, rest: seq<Id>, tys: seq<Ty>, aside: set<Id>)
    requires Progress(h1, rest, tys, aside, {g})
    requires elt in h2.vars && PartAdded(h1, h2, g, elt, h2.vars[elt])
    ensures Progress(h2, [elt] + rest, [h2.vars[elt].ty] + tys, aside, {g})
  {
    var rest2 := [elt] + rest;
    forall x | x in h2.vars && x !in rest2 && x !in aside && x !in {g} ensures Complete(h2, x) {
      assert x != elt by { assert rest2[0] == elt; }
      assert Complete(h1, x);
    }
  }

  lemma ProgressPop(h: Table, g: Id, rest: seq<Id>, tys: seq<Ty>, aside: set<Id>)
    requires Progress(h, [g] + rest, tys, aside, {})
    ensures g in h.vars && g !in h.kids && h.vars[g].ty == tys[0]
    ensures Progress(h, rest, tys[1..], aside, {g})
  {
    var all := [g] + rest;
    assert forall i: nat :: i < |rest| ==> rest[i] == all[i + 1];
    assert all[0] == g;
  }

  lemma ProgressDone(h: Table, g: Id, rest: seq<Id>, tys: seq<Ty>, aside: set<Id>)
    requires Progress(h, rest, tys, aside, {g}) && g in h.vars && Complete(h, g)
    ensures Progress(h, rest, tys, aside, {})
  {
  }

  lemma InsertBehind(work: seq<Id>, i: nat, elt: Id)
    requires i < |work|
    ensures (work[..i + 1] + [elt] + work[i + 1..])[i + 1..] == [elt] + work[i + 1..]
  {
  }

  /** The variable stands for the part of its root at its path, and starts with that part of
      the root's initializer. */
  ghost predicate Stands(h: Table, init: map<Id, Value>, roots: map<Id, Var>, rootInit: map<Id, Value>, x: Id) {
    x in h.vars && x in init &&
    var v := h.vars[x];
    v.root in roots && v.root in rootInit &&
    var t := roots[v.root].ty;
    HasType(rootInit[v.root], t) && ValidPath(t, v.path) && SubTy(t, v.path) == v.ty &&
    init[x] == At(rootInit[v.root], t, v.path)
  }

  ghost predicate Provenance(h: Table, init: map<Id, Value>, aside: set<Id>,
                             roots: map<Id, Var>, rootInit: map<Id, Value>) {
    (forall x | x in roots :: x in h.vars && h.vars[x] == roots[x]) &&
    (forall x | x in aside :: x in roots) &&
    forall x | x in h.vars && x !in aside :: Stands(h, init, roots, rootInit, x)
  }

  lemma ProvenancePart(h1: Table, init1: map<Id, Value>, h2: Table, init2: map<Id, Value>, g: Id, elt: Id,
                       aside: set<Id>, roots: map<Id, Var>, rootInit: map<Id, Value>)
    requires Provenance(h1, init1, aside, roots, rootInit) && g in h1.vars && g !in aside
    requires elt in h2.vars && PartAdded(h1, h2, g, elt, h2.vars[elt])
    requires Stands(h1, init1, roots, rootInit, g) && HasType(init1[g], h1.vars[g].ty)
    requires g in h2.kids && 0 < |h2.kids[g]| <= h1.vars[g].ty.Arity()
    requires var i := |h2.kids[g]| - 1;
             h2.vars[elt] == Var(h1.vars[g].ty.Elem(i), h1.vars[g].root, h1.vars[g].path + [i]) &&
             init2 == init1[elt := init1[g].parts[i]]
    ensures Provenance(h2, init2, aside, roots, rootInit)
  {
    var v := h1.vars[g];
    AtPart(rootInit[v.root], roots[v.root].ty, v.path, |h2.kids[g]| - 1);
    forall x | x in h2.vars && x !in aside ensures Stands(h2, init2, roots, rootInit, x) {
      if x != elt { assert Stands(h1, init1, roots, rootInit, x); }
    }
  }

  /** The globals that may be expanded: each once, with an initializer of its type. */
  ghost predicate Expandable(h: Table, init: map<Id, Value>, toExp: seq<Id>) {
    h.kids == map[] && (forall a | a in h.vars :: IsRoot(h, a)) &&
    (forall i: nat :: i < |toExp| ==>
      toExp[i] in h.vars && toExp[i] in init && HasType(init[toExp[i]], h.vars[toExp[i]].ty)) &&
    forall i: nat, j: nat :: i < j < |toExp| ==> toExp[i] != toExp[j]
  }

  lemma ScanStarts(h: Table, init: map<Id, Value>, toExp: seq<Id>, tys: seq<Ty>, aside: set<Id>)
    requires Expandable(h, init, toExp)
    requires |tys| == |toExp| && forall i: nat :: i < |toExp| ==> tys[i] == h.vars[toExp[i]].ty
    requires forall x :: x in aside <==> x in h.vars && x !in toExp
    ensures Progress(h, toExp, tys, aside, {}) && Provenance(h, init, aside, h.vars, init)
  {
    forall x | x in h.vars && x !in aside ensures Stands(h, init, h.vars, init, x) {
      assert x in toExp && IsRoot(h, x);
    }
  }

  class GlobalExpander {
    ghost const roots: set<Id>    // the variables of the program
    const bound: Id               // new variables are numbered from here
    var vars: map<Id, Var>
    var kids: map<Id, seq<Id>>
    var init: map<Id, Value>
    var next: Id

    function T(): Table
      reads this
    {
      Table(vars, kids)
    }

    ghost predicate Valid()
      reads this
    {
      bound <= next && (forall a | a in vars :: a < next && (a in roots || bound <= a) && vars[a].root in roots) && AllLinked(T())
    }

    constructor (roots: map<Id, Ty>, values: map<Id, Value>, bound: Id)
      requires forall r | r in roots :: r < bound
      ensures Valid() && kids == map[] && init == values
      ensures vars.Keys == roots.Keys == this.roots && this.bound == bound
      ensures forall r | r in roots :: IsRoot(T(), r) && vars[r].ty == roots[r]
    {
      this.roots, this.bound := roots.Keys, bound;
      vars := map r | r in roots :: Var(roots[r], r, []);
      kids := map[];
      init := values;
      next := bound;
    }

    /** Create the variable for the next part of `g`, with that part of the initializer. */
    method AddPart(g: Id) returns (elt: Id)
      requires Valid() && g in vars && Made(T(), g) < vars[g].ty.Arity()
      requires g in init && HasType(init[g], vars[g].ty)
      modifies this
      ensures Valid() && elt in vars && g in vars && g in kids && vars[g] == old(vars[g])
      ensures Made(T(), g) == old(Made(T(), g)) + 1
      ensures var i := old(Made(T(), g));
              vars[elt] == Var(vars[g].ty.Elem(i), vars[g].root, vars[g].path + [i]) &&
              PartAdded(old(T()), T(), g, elt, vars[elt]) &&
              init == old(init)[elt := old(init)[g].parts[i]]
    {
      var parts := if g in kids then kids[g] else [];
      elt := next;
      assert elt !in kids by { assert forall x | x in kids :: Linked(T(), x); }
      ghost var before := T();
      vars := vars[elt := Var(vars[g].ty.Elem(|parts|), vars[g].root, vars[g].path + [|parts|])];
      next := next + 1;
      init := init[elt := init[g].parts[|parts|]];
      kids := kids[g := parts + [elt]];
      PartKeepsLinks(before, T(), g, elt);
    }

    ghost predicate Scanning(pending: seq<Id>, tys: seq<Ty>, aside: set<Id>, busy: set<Id>,
                             roots: map<Id, Var>, rootInit: map<Id, Value>)
      reads this
    {
      Valid() && Progress(T(), pending, tys, aside, busy) && Provenance(T(), init, aside, roots, rootInit)
    }

    /** Create the next part of `g` and put it first in the worklist. */
    method AddScannedPart(g: Id, ghost rest: seq<Id>, ghost tys: seq<Ty>, ghost aside: set<Id>,
                          ghost roots: map<Id, Var>, ghost rootInit: map<Id, Value>)
      returns (elt: Id)
      requires Scanning(rest, tys, aside, {g}, roots, rootInit)
      requires g in vars && Made(T(), g) < vars[g].ty.Arity()
      modifies this
      ensures elt in vars && g in vars && g in kids && vars[g] == old(vars[g]) && Made(T(), g) == old(Made(T(), g)) + 1
      ensures vars[elt].ty == vars[g].ty.Elem(old(Made(T(), g)))
      ensures Scanning([elt] + rest, [vars[elt].ty] + tys, aside, {g}, roots, rootInit)
    {
      assert Stands(T(), init, roots, rootInit, g);
      ghost var t1, init1 := T(), init;
      elt := AddPart(g);
      ProgressPart(t1, T(), g, elt, rest, tys, aside);
      ProvenancePart(t1, init1, T(), init, g, elt, aside, roots, rootInit);
    }

    /** Create the next part of the variable at `gIdx` and insert it right behind it. */
    method InsertPart(work: seq<Id>, gIdx: nat, ghost tys: seq<Ty>, ghost aside: set<Id>,
                      ghost roots: map<Id, Var>, ghost rootInit: map<Id, Value>)
      returns (work': seq<Id>, ghost tys': seq<Ty>)
      requires gIdx < |work| && Scanning(work[gIdx + 1..], tys, aside, {work[gIdx]}, roots, rootInit)
      requires work[gIdx] in vars && Made(T(), work[gIdx]) < vars[work[gIdx]].ty.Arity()
      modifies this
      ensures gIdx < |work'| && work'[gIdx] == work[gIdx] && work[gIdx] in vars && work[gIdx] in kids
      ensures vars[work[gIdx]] == old(vars[work[gIdx]]) && Made(T(), work[gIdx]) == old(Made(T(), work[gIdx])) + 1
      ensures Scanning(work'[gIdx + 1..], tys', aside, {work[gIdx]}, roots, rootInit)
      ensures Weight(tys') == Weight(tys) + Nodes(vars[work[gIdx]].ty.Elem(old(Made(T(), work[gIdx]))))
    {
      var elt := AddScannedPart(work[gIdx], work[gIdx + 1..], tys, aside, roots, rootInit);
      tys' := [vars[elt].ty] + tys;
      assert tys'[0] == vars[elt].ty && tys'[1..] == tys;
      InsertBehind(work, gIdx, elt);
      work' := work[..gIdx + 1] + [elt] + work[gIdx + 1..];
    }

    /** One turn of the scan: create the parts of the variable at `gIdx`, each inserted right
        behind it. */
    method ExpandParts(work: seq<Id>, gIdx: nat, ghost tys: seq<Ty>, ghost aside: set<Id>,
                       ghost roots: map<Id, Var>, ghost rootInit: map<Id, Value>)
      returns (work': seq<Id>, ghost tys': seq<Ty>)
      requires gIdx < |work|
      requires Scanning(work[gIdx..], tys, aside, {}, roots, rootInit)
      modifies this
      ensures gIdx < |work'| && Scanning(work'[gIdx + 1..], tys', aside, {}, roots, rootInit)
      ensures Weight(tys') < Weight(tys)
    {
      var g := work[gIdx];
      assert work[gIdx..] == [g] + work[gIdx + 1..];
      ProgressPop(T(), g, work[gIdx + 1..], tys, aside);
      work', tys' := InsertParts(work, gIdx, tys[1..], aside, roots, rootInit);
      ProgressDone(T(), g, work'[gIdx + 1..], tys', aside);
    }

    /** Create all parts of the variable at `gIdx`. */
    method InsertParts(work: seq<Id>, gIdx: nat, ghost tys: seq<Ty>, ghost aside: set<Id>,
                       ghost roots: map<Id, Var>, ghost rootInit: map<Id, Value>)
      returns (work': seq<Id>, ghost tys': seq<Ty>)
      requires gIdx < |work| && Scanning(work[gIdx + 1..], tys, aside, {work[gIdx]}, roots, rootInit)
      requires work[gIdx] in vars && work[gIdx] !in kids
      modifies this
      ensures gIdx < |work'| && Scanning(work'[gIdx + 1..], tys', aside, {work[gIdx]}, roots, rootInit)
      ensures work[gIdx] in vars && Complete(T(), work[gIdx])
      ensures Weight(tys') == NodesBefore(old(vars)[work[gIdx]].ty, old(vars)[work[gIdx]].ty.Arity()) + Weight(tys)
    {
      var g := work[gIdx];
      var ty := vars[g].ty;
      work', tys' := work, tys;
      for e := 0 to ty.Arity()
        invariant gIdx < |work'| && work'[gIdx] == g && Scanning(work'[gIdx + 1..], tys', aside, {g}, roots, rootInit)
        invariant g in vars && vars[g].ty == ty && Made(T(), g) == e && (g in kids <==> e > 0)
        invariant Weight(tys') == NodesBefore(ty, e) + Weight(tys)
      {
        work', tys' := InsertPart(work', gIdx, tys', aside, roots, rootInit);
      }
    }

    /** Expand the globals in `toExp` and everything below them. */
    method ExpandGlobals(toExp: seq<Id>)
      requires Valid() && Expandable(T(), init, toExp)
      modifies this
      ensures Valid() && WellExpanded(T())
      ensures forall r | r in old(vars) :: r in vars && vars[r] == old(vars[r])
      ensures forall i: nat :: i < |toExp| ==> Complete(T(), toExp[i])
      ensures forall r | r in old(vars) && r !in toExp :: r !in kids
      ensures forall x | x in vars && (x in toExp || x !in old(vars)) :: Stands(T(), init, old(vars), old(init), x)
    {
      var work := toExp;
      var gIdx := 0;
      ghost var roots, rootInit := vars, init;
      ghost var tys := seq(|toExp|, i requires 0 <= i < |toExp| => roots[toExp[i]].ty);
      ghost var aside := set r | r in vars && r !in toExp;
      ScanStarts(T(), init, toExp, tys, aside);
      assert work[0..] == toExp;
      while gIdx < |work|
        invariant gIdx <= |work| && Scanning(work[gIdx..], tys, aside, {}, roots, rootInit)
        decreases Weight(tys)
      {
        work, tys := ExpandParts(work, gIdx, tys, aside, roots, rootInit);
        gIdx := gIdx + 1;
      }
    }
  }

  /** Allocas and globals are expanded in tables of their own. */
  function Both(h: Table, g: Table): Table {
    Table(h.vars + g.vars, h.kids + g.kids)
  }

  lemma KidsHaveVars(h: Table)
    requires WellExpanded(h)
    ensures h.kids.Keys <= h.vars.Keys
  {
    forall a | a in h.kids ensures a in h.vars { assert Linked(h, a); }
  }

  lemma BothExpanded(h: Table, g: Table)
    requires WellExpanded(h) && WellExpanded(g) && h.vars.Keys !! g.vars.Keys
    ensures WellExpanded(Both(h, g)) && h.kids.Keys !! g.kids.Keys
  {
    var b := Both(h, g);
    KidsHaveVars(h);
    KidsHaveVars(g);
    forall a | a in b.kids ensures Linked(b, a) {
      if a in g.kids { assert Linked(g, a); } else { assert Linked(h, a); }
    }
    forall a | a in b.vars ensures Complete(b, a) || (IsRoot(b, a) && a !in b.kids) {
      if a in g.vars { assert Complete(g, a) || IsRoot(g, a); } else { assert Complete(h, a) || IsRoot(h, a); }
    }
  }
}
