/** The if-then-else chain that replaces an access with dynamic indices.

    The pass lists the leaves of the base variable, drops those that the access cannot reach,
    and emits one comparison of the computed leaf number with each remaining leaf's number.
    The chain lives in a wrapper function: its parameters are the leaf variables.
 */
module SelectChain {
  import opened Types
  import opened Expansion
  import opened Indices
  import opened LeafIndex
  import opened Wrappers

  /** One comparison: run the access on parameter `param` when the leaf number equals `key`. */
  datatype Arm = Arm(key: int, param: nat)

  /** The wrapper function's body and the variables its call passes; a parameter that no arm
      uses is passed a null pointer. */
  datatype Wrapper = Wrapper(arms: seq<Arm>, args: seq<Option<Id>>)

  /** The arm that runs: the first whose comparison holds.  A load without such an arm yields
      an undefined value, a store without one does nothing. */
  function Taken(arms: seq<Arm>, offset: int): Option<nat>
    decreases arms
  {
    if arms == [] then None
    else if arms[0].key == offset then Some(arms[0].param)
    else Taken(arms[1..], offset)
  }

  function Selected(w: Wrapper, offset: int): Option<Id> {
    match Taken(w.arms, offset)
    case None => None
    case Some(param) => if param < |w.args| then w.args[param] else None
  }

  /** The leaf may be the accessed one: it has the accessed type, and where its path is as long
      as the chain it agrees with the constant indices. */
  predicate Survives(entry: LeafEntry, accessTy: Ty, chain: seq<Index>) {
    entry.0 == accessTy &&
    (|entry.1| == |chain| ==>
      forall i: nat :: i < |chain| && chain[i].Const? ==> chain[i].Eval(map[]) == entry.1[i])
  }

  /** The loop that decides on the constant indices. */
  method DifferentChain(path: Path, chain: seq<Index>) returns (different: bool)
    requires |path| == |chain|
    ensures different <==> exists i: nat :: i < |chain| && chain[i].Const? && chain[i].Eval(map[]) != path[i]
  {
    different := false;
    for i := 0 to |path|
      invariant !different
      invariant forall j: nat :: j < i && chain[j].Const? ==> chain[j].Eval(map[]) == path[j]
    {
      if chain[i].Const? && chain[i].Eval(map[]) != path[i] {
        different := true;
        break;
      }
    }
  }

  function TypeMatches(expanded: seq<LeafEntry>, accessTy: Ty): nat {
    if expanded == [] then 0
    else TypeMatches(expanded[..|expanded| - 1], accessTy)
         + if expanded[|expanded| - 1].0 == accessTy then 1 else 0
  }

  function LeavesOfType(expanded: seq<LeafEntry>, accessTy: Ty): set<nat> {
    set k: nat | k < |expanded| && expanded[k].0 == accessTy
  }

  /** The number of leaves of the accessed type. */
  lemma {:induction false} TypeMatchesCounts(expanded: seq<LeafEntry>, accessTy: Ty)
    ensures TypeMatches(expanded, accessTy) == |LeavesOfType(expanded, accessTy)|
    decreases |expanded|
  {
    if expanded != [] {
      TypeMatchesCounts(expanded[..|expanded| - 1], accessTy);
      LastOfType(expanded, accessTy);
    }
  }

  lemma LastOfType(expanded: seq<LeafEntry>, accessTy: Ty)
    requires expanded != []
    ensures var n := |expanded| - 1;
            |LeavesOfType(expanded, accessTy)| ==
            |LeavesOfType(expanded[..n], accessTy)| + if expanded[n].0 == accessTy then 1 else 0
  {
    var n := |expanded| - 1;
    var before := LeavesOfType(expanded[..n], accessTy);
    assert LeavesOfType(expanded, accessTy) == if expanded[n].0 == accessTy then before + {n} else before;
  }

  /** Numbers of the surviving leaves among the first `n`, in order. */
  function Survivors(expanded: seq<LeafEntry>, accessTy: Ty, chain: seq<Index>, n: nat): (ks: seq<nat>)
    requires n <= |expanded|
    ensures forall j: nat :: j < |ks| ==> ks[j] < n && Survives(expanded[ks[j]], accessTy, chain)
    ensures forall i: nat, j: nat :: i < j < |ks| ==> ks[i] < ks[j]
    ensures |ks| <= TypeMatches(expanded[..n], accessTy)
  {
    if n == 0 then []
    else
      assert expanded[..n][..n - 1] == expanded[..n - 1];
      var ks := Survivors(expanded, accessTy, chain, n - 1);
      if Survives(expanded[n - 1], accessTy, chain) then ks + [n - 1] else ks
  }

  lemma {:induction false} SurvivorListed(expanded: seq<LeafEntry>, accessTy: Ty, chain: seq<Index>, n: nat, k: nat)
    requires k < n <= |expanded| && Survives(expanded[k], accessTy, chain)
    ensures k in Survivors(expanded, accessTy, chain, n)
    decreases n
  {
    if k < n - 1 { SurvivorListed(expanded, accessTy, chain, n - 1, k); }
  }

  /** The wrapper compares with the number of each surviving leaf, and passes that leaf's
      variable for it. */
  ghost predicate Compares(h: Table, base: Id, expanded: seq<LeafEntry>, w: Wrapper, ks: seq<nat>) {
    |w.arms| == |ks| <= |w.args| &&
    forall j: nat :: j < |ks| ==>
      ks[j] < |expanded| && w.arms[j] == Arm(Wrap(W32, ks[j]), j) &&
      GetElementAtIdx(h, base, expanded[ks[j]].1).Ok? &&
      w.args[j] == Some(GetElementAtIdx(h, base, expanded[ks[j]].1).value)
  }

  /** One null argument for each leaf of the accessed type. */
  method NullArguments(expanded: seq<LeafEntry>, accessTy: Ty) returns (args: seq<Option<Id>>)
    ensures |args| == TypeMatches(expanded, accessTy)
  {
    args := [];
    for n := 0 to |expanded|
      invariant |args| == TypeMatches(expanded[..n], accessTy)
    {
      assert expanded[..n + 1][..n] == expanded[..n];
      if expanded[n].0 == accessTy {
        args := args + [None];
      }
    }
    assert expanded[..|expanded|] == expanded;
  }

  lemma OneMoreArm(h: Table, base: Id, expanded: seq<LeafEntry>, accessTy: Ty, chain: seq<Index>,
                   n: nat, w: Wrapper, leaf: Id)
    requires n < |expanded| && Survives(expanded[n], accessTy, chain)
    requires Compares(h, base, expanded, w, Survivors(expanded, accessTy, chain, n))
    requires |w.args| == TypeMatches(expanded, accessTy)
    requires GetElementAtIdx(h, base, expanded[n].1) == Ok(leaf)
    ensures |w.arms| < |w.args|
    ensures Compares(h, base, expanded,
                     Wrapper(w.arms + [Arm(Wrap(W32, n), |w.arms|)], w.args[|w.arms| := Some(leaf)]),
                     Survivors(expanded, accessTy, chain, n + 1))
  {
    TypeMatchesPrefix(expanded, accessTy, n + 1);
    assert Survivors(expanded, accessTy, chain, n + 1) == Survivors(expanded, accessTy, chain, n) + [n];
  }

  /** Build the wrapper. */
  method BuildWrapper(h: Table, base: Id, expanded: seq<LeafEntry>, accessTy: Ty, chain: seq<Index>)
    returns (r: Result<Wrapper>)
    ensures r.Ok? ==> Compares(h, base, expanded, r.value, Survivors(expanded, accessTy, chain, |expanded|))
    ensures r.Err? ==> exists k: nat :: k < |expanded| && GetElementAtIdx(h, base, expanded[k].1).Err?
  {
    var args := NullArguments(expanded, accessTy);
    var arms: seq<Arm> := [];
    for typeIdx := 0 to |expanded|
      invariant |args| == TypeMatches(expanded, accessTy)
      invariant Compares(h, base, expanded, Wrapper(arms, args), Survivors(expanded, accessTy, chain, typeIdx))
    {
      var entry := expanded[typeIdx];
      if entry.0 != accessTy {
        continue;
      }
      if |entry.1| == |chain| {
        var different := DifferentChain(entry.1, chain);
        if different {
          continue;
        }
      }
      var leaf := GetElementAtIdx(h, base, entry.1);
      if leaf.Err? {
        return Err(leaf.error);
      }
      OneMoreArm(h, base, expanded, accessTy, chain, typeIdx, Wrapper(arms, args), leaf.value);
      args, arms := args[|arms| := Some(leaf.value)], arms + [Arm(Wrap(W32, typeIdx), |arms|)];
    }
    return Ok(Wrapper(arms, args));
  }

  lemma {:induction false} TypeMatchesPrefix(expanded: seq<LeafEntry>, accessTy: Ty, n: nat)
    requires n <= |expanded|
    ensures TypeMatches(expanded[..n], accessTy) <= TypeMatches(expanded, accessTy)
    decreases |expanded|
  {
    if n == |expanded| {
      assert expanded[..n] == expanded;
    } else {
      TypeMatchesPrefix(expanded[..|expanded| - 1], accessTy, n);
      assert expanded[..|expanded| - 1][..n] == expanded[..n];
    }
  }

  // ----- exactness -----

  lemma {:induction false} TakenFirst(arms: seq<Arm>, offset: int, j: nat)
    requires j < |arms| && arms[j].key == offset
    requires forall i: nat :: i < j ==> arms[i].key != offset
    ensures Taken(arms, offset) == Some(arms[j].param)
    decreases arms
  {
    if j > 0 {
      assert arms[1..][j - 1] == arms[j] && forall i: nat :: i < j - 1 ==> arms[1..][i] == arms[i + 1];
      TakenFirst(arms[1..], offset, j - 1);
    }
  }

  lemma {:induction false} TakenNone(arms: seq<Arm>, offset: int)
    requires forall i: nat :: i < |arms| ==> arms[i].key != offset
    ensures Taken(arms, offset) == None
    decreases arms
  {
    if arms != [] {
      assert forall i: nat :: i < |arms| - 1 ==> arms[1..][i] == arms[i + 1];
      TakenNone(arms[1..], offset);
    }
  }

  /** The wrapper for accesses of type `accessTy` along `chain` into the variable `r`. */
  ghost predicate WrapperFor(h: Table, r: Id, w: Wrapper, accessTy: Ty, chain: seq<Index>)
    requires Expanded(h, r)
  {
    var expanded := Leaves(h.vars[r].ty);
    Compares(h, r, expanded, w, Survivors(expanded, accessTy, chain, |expanded|))
  }

  /** For an in-bounds access the right leaf is never filtered out. */
  lemma RightLeafSurvives(t: Ty, chain: seq<Index>, env: Env, p: Path)
    requires Reaches(t, chain, env, p)
    ensures Position(t, p) < |Leaves(t)| && Survives(Leaves(t)[Position(t, p)], SubTy(t, p), chain)
  {
    PositionHolds(t, p);
    assert forall i: nat :: i < |chain| ==> Evals(chain, env)[i] == p[i];
  }

  /** Every leaf number gets at most one comparison, and a comparison leads to the variable of
      the leaf with that number. */
  lemma ArmsAreDistinct(h: Table, r: Id, w: Wrapper, accessTy: Ty, chain: seq<Index>, i: nat, j: nat)
    requires Expanded(h, r) && WrapperFor(h, r, w, accessTy, chain)
    requires |Leaves(h.vars[r].ty)| <= Half(W32)
    requires i < |w.arms| && j < |w.arms| && w.arms[i].key == w.arms[j].key
    ensures i == j
  {
  }

  /** What the chain selects for each leaf number: the leaf's variable if the leaf has the accessed type and,
      where its path is as long as the chain, agrees with all constant indices, and nothing otherwise. */
  lemma SelectedLeaf(h: Table, r: Id, w: Wrapper, accessTy: Ty, chain: seq<Index>, k: nat)
    requires Expanded(h, r) && WrapperFor(h, r, w, accessTy, chain)
    requires k < |Leaves(h.vars[r].ty)| <= Half(W32)
    ensures var e := Leaves(h.vars[r].ty)[k];
            LeafPath(h.vars[r].ty, e.1) &&
            Selected(w, k) ==
            if e.0 == accessTy &&
               (|e.1| != |chain| || forall i: nat :: i < |chain| && chain[i].Const? ==> Wrap(chain[i].w, chain[i].v) == e.1[i])
            then Some(Resolve(h, r, e.1)) else None
  {
    var t := h.vars[r].ty;
    LeavesAreLeaves(t, k);
    ConstantChainResolves(h, r, Leaves(t)[k].1);
    if Survives(Leaves(t)[k], accessTy, chain) {
      SurvivorSelected(h, r, Leaves(t), w, accessTy, chain, k);
    } else {
      OthersSelectNothing(h, r, Leaves(t), w, accessTy, chain, k);
    }
  }

  lemma SurvivorSelected(h: Table, base: Id, entries: seq<LeafEntry>, w: Wrapper, accessTy: Ty, chain: seq<Index>, k: nat)
    requires Compares(h, base, entries, w, Survivors(entries, accessTy, chain, |entries|))
    requires k < |entries| <= Half(W32) && Survives(entries[k], accessTy, chain)
    ensures GetElementAtIdx(h, base, entries[k].1).Ok?
    ensures Selected(w, k) == Some(GetElementAtIdx(h, base, entries[k].1).value)
  {
    var ks := Survivors(entries, accessTy, chain, |entries|);
    SurvivorListed(entries, accessTy, chain, |entries|, k);
    var j :| 0 <= j < |ks| && ks[j] == k;
    forall i: nat | i < j ensures w.arms[i].key != k { assert ks[i] < ks[j]; }
    TakenFirst(w.arms, k, j);
  }

  lemma OthersSelectNothing(h: Table, base: Id, entries: seq<LeafEntry>, w: Wrapper, accessTy: Ty, chain: seq<Index>,
                            k: nat)
    requires Compares(h, base, entries, w, Survivors(entries, accessTy, chain, |entries|))
    requires k < |entries| <= Half(W32) && !Survives(entries[k], accessTy, chain)
    ensures Selected(w, k) == None
  {
    var ks := Survivors(entries, accessTy, chain, |entries|);
    forall i: nat | i < |w.arms| ensures w.arms[i].key != k { assert Survives(entries[ks[i]], accessTy, chain); }
    TakenNone(w.arms, k);
  }

  /** The chain selects the accessed leaf when the number computed is that leaf's position, and
      only then. */
  lemma SelectsIff(h: Table, r: Id, w: Wrapper, chain: seq<Index>, env: Env, p: Path, k: nat)
    requires Expanded(h, r) && Reaches(h.vars[r].ty, chain, env, p)
    requires WrapperFor(h, r, w, SubTy(h.vars[r].ty, p), chain)
    requires k < |Leaves(h.vars[r].ty)| <= Half(W32)
    ensures Selected(w, k) == Some(Resolve(h, r, p)) <==> k == Position(h.vars[r].ty, p)
  {
    var t := h.vars[r].ty;
    PositionHolds(t, p);
    RightLeafSurvives(t, chain, env, p);
    SelectedLeaf(h, r, w, SubTy(t, p), chain, k);
    LeavesAreLeaves(t, k);
    if Selected(w, k) == Some(Resolve(h, r, p)) {
      ResolveInjective(h, r, p, r, Leaves(t)[k].1);
    }
  }

  lemma SumIsRank(t: Ty, chain: seq<Index>, env: Env, p: Path, terms: seq<Term>)
    requires Reaches(t, chain, env, p) && |Leaves(t)| < Half(W32) && IdxSum(t, chain) == Ok(terms)
    ensures SumTerms(0, terms, env) == Rank(t, p) < |Leaves(t)|
  {
    CountIsScalarLeaves(t);
    AllScalarsIff(Leaves(t));
    IdxSumIsRank(t, chain, env, p, 0);
    RankInRange(t, p);
  }

  /** Exactly one comparison holds for an in-bounds access, and it names the accessed leaf,
      exactly when no empty aggregate is listed before that leaf. */
  lemma ChainIsExactIff(h: Table, r: Id, w: Wrapper, chain: seq<Index>, env: Env, p: Path, terms: seq<Term>)
    requires Expanded(h, r) && Reaches(h.vars[r].ty, chain, env, p)
    requires WrapperFor(h, r, w, SubTy(h.vars[r].ty, p), chain)
    requires |Leaves(h.vars[r].ty)| < Half(W32) && IdxSum(h.vars[r].ty, chain) == Ok(terms)
    ensures Selected(w, SumTerms(0, terms, env)) == Some(Resolve(h, r, p)) <==> NoEmptyBefore(h.vars[r].ty, p)
  {
    SumIsRank(h.vars[r].ty, chain, env, p, terms);
    RankIsPositionIff(h.vars[r].ty, p);
    SelectsIff(h, r, w, chain, env, p, Rank(h.vars[r].ty, p));
  }
}
