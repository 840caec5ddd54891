/** The size gate of the expandability analysis: how many scalars and bytes an aggregate may
    have, and what that guarantees to the arithmetic of the rewritten accesses.
 */
module LeafBudget {
  import opened Types
  import opened Layout
  import opened Indices
  import opened LeafIndex

  const MAX_NUM_SCALAR_TYPES: nat := 32
  const MAX_TYPE_BYTE_SIZE: nat := 128

  /** Scalars in a list of types. */
  function CountAll(ts: seq<Ty>): nat {
    if ts == [] then 0 else Count(ts[0]) + CountAll(ts[1..])
  }

  function Parts(t: Ty, n: nat): (r: seq<Ty>)
    requires n <= t.Arity()
    ensures |r| == n
  {
    if n == 0 then [] else Parts(t, n - 1) + [t.Elem(n - 1)]
  }

  lemma {:induction false} MeasuresConcat(a: seq<Ty>, b: seq<Ty>)
    ensures CountAll(a + b) == CountAll(a) + CountAll(b)
    ensures Weight(a + b) == Weight(a) + Weight(b)
    decreases a
  {
    if a == [] {
      assert a + b == b;
    } else {
      MeasuresConcat(a[1..], b);
      assert (a + b)[1..] == a[1..] + b;
    }
  }

  lemma {:induction false} MeasuresOfParts(t: Ty, n: nat)
    requires n <= t.Arity()
    ensures CountAll(Parts(t, n)) == CountBefore(t, n)
    ensures Weight(Parts(t, n)) == NodesBefore(t, n)
  {
    if n > 0 {
      MeasuresOfParts(t, n - 1);
      MeasuresConcat(Parts(t, n - 1), [t.Elem(n - 1)]);
    }
  }

  /** Taking an aggregate off the front and appending its parts keeps the number of scalars. */
  lemma ReplaceByParts(t: Ty, rest: seq<Ty>)
    requires !t.Scalar?
    ensures CountAll(rest + Parts(t, t.Arity())) == CountAll([t] + rest)
    ensures Weight(rest + Parts(t, t.Arity())) < Weight([t] + rest)
  {
    MeasuresOfParts(t, t.Arity());
    MeasuresConcat(rest, Parts(t, t.Arity()));
    CountOfParts(t);
    assert ([t] + rest)[1..] == rest;
  }

  method Copies(ty: Ty, dim: nat) returns (contained: seq<Ty>)
    ensures CountAll(contained) == dim * Count(ty)
  {
    contained := [];
    ghost var c := Count(ty);
    for e := 0 to dim
      invariant CountAll(contained) == e * c
    {
      OneMoreCopy(contained, ty, e);
      contained := contained + [ty];
    }
  }

  lemma OneMoreCopy(contained: seq<Ty>, ty: Ty, e: nat)
    requires CountAll(contained) == e * Count(ty)
    ensures CountAll(contained + [ty]) == (e + 1) * Count(ty)
  {
    MeasuresConcat(contained, [ty]);
    assert [ty][1..] == [];
    assert (e + 1) * Count(ty) == e * Count(ty) + Count(ty);
  }

  /** Count the scalars of `dim` copies of a type with a list that grows while it is scanned. */
  method GetNumElements(ty: Ty, dim: nat) returns (scalars: nat)
    ensures scalars == dim * Count(ty)
  {
    var contained := Copies(ty, dim);
    scalars := 0;
    var cIdx := 0;
    ghost var waiting, total := contained, CountAll(contained);
    while cIdx < |contained|
      invariant cIdx <= |contained| && waiting == contained[cIdx..]
      invariant scalars + CountAll(waiting) == total
      decreases Weight(waiting)
    {
      var el := contained[cIdx];
      ghost var rest := waiting[1..];
      assert waiting == [el] + rest && contained[cIdx + 1..] == rest;
      if !el.Scalar? {
        contained := AppendParts(contained, el);
        ReplaceByParts(el, rest);
        waiting := rest + Parts(el, el.Arity());
      } else {
        scalars := scalars + 1;
        waiting := rest;
      }
      cIdx := cIdx + 1;
    }
  }

  method AppendParts(contained: seq<Ty>, el: Ty) returns (r: seq<Ty>)
    ensures r == contained + Parts(el, el.Arity())
  {
    r := contained;
    for e := 0 to el.Arity()
      invariant r == contained + Parts(el, e)
    {
      r := r + [el.Elem(e)];
    }
  }

  predicate WithinBudget(t: Ty) {
    Count(t) <= MAX_NUM_SCALAR_TYPES && Size(t) <= MAX_TYPE_BYTE_SIZE
  }

  /** The gate on an alloca or a global. */
  method ExpandableSize(t: Ty) returns (ok: bool)
    ensures ok <==> WithinBudget(t)
    ensures ok <==> Count(t) <= 32 && Size(t) <= 128
  {
    var numElements := GetNumElements(t, 1);
    ok := numElements <= MAX_NUM_SCALAR_TYPES && Size(t) <= MAX_TYPE_BYTE_SIZE;
  }

  /** The gate on a call operand multiplies by the decayed dimension, which is zero when the
      operand has none. */
  method ExpandableOperand(t: Ty, decayedDim: nat) returns (ok: bool)
    ensures ok <==> Count(t) * decayedDim <= 32 && Size(t) * decayedDim <= 128
    ensures decayedDim == 0 ==> ok
  {
    var numElements := GetNumElements(t, 1);
    numElements := numElements * decayedDim;
    ok := numElements <= MAX_NUM_SCALAR_TYPES && Size(t) * decayedDim <= MAX_TYPE_BYTE_SIZE;
  }

  /** No aggregate without parts anywhere in a type. */
  predicate NoEmptyAggregate(t: Ty) {
    forall k :: 0 <= k < |Leaves(t)| ==> Leaves(t)[k].0.Scalar?
  }

  /** An accepted type without empty aggregates has at most 32 leaves, all scalars, so leaf
      numbers are far inside 32 bits and both numberings of its leaves agree. */
  lemma AcceptedTypes(t: Ty)
    requires WithinBudget(t) && NoEmptyAggregate(t)
    ensures |Leaves(t)| == Count(t) <= 32 < Half(W32)
    ensures forall p :: ScalarPath(t, p) ==> NoEmptyBefore(t, p) && Rank(t, p) == Position(t, p)
  {
    CountIsScalarLeaves(t);
    AllScalarsIff(Leaves(t));
    forall p | ScalarPath(t, p) ensures NoEmptyBefore(t, p) && Rank(t, p) == Position(t, p) {
      RankIsPositionIff(t, p);
    }
  }

  /** In an accepted type no partial sum of an in-bounds access exceeds the number of leaves. */
  lemma SumsStayInBudget(t: Ty, p: Path)
    requires WithinBudget(t) && ValidPath(t, p)
    ensures Rank(t, p) + Count(SubTy(t, p)) <= Count(t) <= 32
  {
    PartialRankBound(t, p);
  }
}
