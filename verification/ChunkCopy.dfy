/** Lowering of a chunk copy: a wide load and store through casted pointers become loads and
    stores of the scalars behind the pointers.
 */
module ChunkCopy {
  import opened Types
  import opened Layout

  /** The paths of all scalars of a type, depth first. */
  function ScalarPaths(t: Ty): seq<Path>
    decreases t, t.Arity() + 1
  {
    if t.Scalar? then [[]] else ScalarPathsBefore(t, t.Arity())
  }

  function ScalarPathsBefore(t: Ty, n: nat): seq<Path>
    requires n <= t.Arity()
    decreases t, n
  {
    if n == 0 then [] else ScalarPathsBefore(t, n - 1) + Under([n - 1], ScalarPaths(t.Elem(n - 1)))
  }

  function Under(pre: Path, ps: seq<Path>): (r: seq<Path>)
    ensures |r| == |ps|
    ensures forall k :: 0 <= k < |r| ==> r[k] == pre + ps[k]
  {
    seq(|ps|, k requires 0 <= k < |ps| => pre + ps[k])
  }

  lemma UnderConcat(pre: Path, a: seq<Path>, b: seq<Path>)
    ensures Under(pre, a + b) == Under(pre, a) + Under(pre, b)
  {
  }

  lemma UnderUnder(pre: Path, mid: Path, a: seq<Path>)
    ensures Under(pre, Under(mid, a)) == Under(pre + mid, a)
  {
    forall k | 0 <= k < |a| ensures pre + (mid + a[k]) == (pre + mid) + a[k] {}
  }

  /** The emitted instructions: loads of scalars in front of the old load, stores of the loaded
      values, in the same order, in front of the old store.  A path starts with an index that
      strides over whole pointees. */
  class CopyLowering {
    var loads: seq<Path>
    var stores: seq<Path>

    constructor ()
      ensures loads == [] && stores == []
    {
      loads, stores := [], [];
    }

    method RecursiveCopyLowering(ty: Ty, gepiIdxs: Path, fitting: nat)
      modifies this
      ensures loads == old(loads) + Lowered(ty, gepiIdxs, fitting)
      ensures stores == old(stores) + Lowered(ty, gepiIdxs, fitting)
      decreases if fitting > 1 then 1 else 0, ty
    {
      if fitting > 1 {
        var parts := Array(fitting, ty);
        for idx := 0 to fitting
          invariant loads == old(loads) + Under(gepiIdxs, ScalarPathsBefore(parts, idx))
          invariant stores == old(stores) + Under(gepiIdxs, ScalarPathsBefore(parts, idx))
        {
          RecursiveCopyLowering(ty, gepiIdxs + [idx], 1);
          NextPart(parts, idx, gepiIdxs);
        }
      } else if !ty.Scalar? {
        for idx := 0 to ty.Arity()
          invariant loads == old(loads) + Under(gepiIdxs, ScalarPathsBefore(ty, idx))
          invariant stores == old(stores) + Under(gepiIdxs, ScalarPathsBefore(ty, idx))
        {
          RecursiveCopyLowering(ty.Elem(idx), gepiIdxs + [idx], 1);
          NextPart(ty, idx, gepiIdxs);
        }
      } else {
        loads := loads + [gepiIdxs];
        stores := stores + [gepiIdxs];
        assert Under(gepiIdxs, [[]]) == [gepiIdxs] by { assert gepiIdxs + [] == gepiIdxs; }
      }
    }

    /** `chunkSize` is the size of what the casted pointers point to. */
    method LowerChunkCopy(chunkSize: nat, ty: Ty)
      requires Size(ty) > 0
      modifies this
      ensures loads == old(loads) + Emitted(chunkSize, ty) && stores == old(stores) + Emitted(chunkSize, ty)
    {
      var fitting := Fitting(chunkSize, ty);
      var gepiIdxs := if chunkSize == Size(ty) then [0] else [];
      RecursiveCopyLowering(ty, gepiIdxs, fitting);
    }
  }

  lemma NextPart(t: Ty, idx: nat, pre: Path)
    requires idx < t.Arity()
    ensures Under(pre, ScalarPathsBefore(t, idx)) + Under(pre + [idx], ScalarPaths(t.Elem(idx))) ==
            Under(pre, ScalarPathsBefore(t, idx + 1))
    ensures forall out: seq<Path> ::
              (out + Under(pre, ScalarPathsBefore(t, idx))) + Under(pre + [idx], ScalarPaths(t.Elem(idx))) ==
              out + Under(pre, ScalarPathsBefore(t, idx + 1))
  {
    var here := ScalarPaths(t.Elem(idx));
    UnderConcat(pre, ScalarPathsBefore(t, idx), Under([idx], here));
    UnderUnder(pre, [idx], here);
  }

  /** How many whole pointees fit into a chunk. */
  function Fitting(chunkSize: nat, ty: Ty): nat
    requires Size(ty) > 0
  {
    chunkSize / Size(ty)
  }

  /** The paths that the lowering of a chunk emits. */
  function Emitted(chunkSize: nat, ty: Ty): seq<Path>
    requires Size(ty) > 0
  {
    var fitting := Fitting(chunkSize, ty);
    var pre := if chunkSize == Size(ty) then [0] else [];
    Lowered(ty, pre, fitting)
  }

  /** The paths emitted for `fitting` consecutive pointees. */
  function Lowered(ty: Ty, pre: Path, fitting: nat): seq<Path> {
    Under(pre, if fitting > 1 then ScalarPaths(Array(fitting, ty)) else ScalarPaths(ty))
  }

  /** The chunk is a whole number of pointees, and at least one. */
  predicate WholePointees(chunkSize: nat, ty: Ty)
    requires Size(ty) > 0
  {
    chunkSize > 0 && chunkSize % Size(ty) == 0
  }

  /** For whole pointees each scalar of each pointee is copied once, in order. */
  lemma EmittedAreLeaves(chunkSize: nat, ty: Ty)
    requires Size(ty) > 0 && WholePointees(chunkSize, ty)
    ensures Emitted(chunkSize, ty) == ScalarPaths(Array(Fitting(chunkSize, ty), ty))
    ensures Size(Array(Fitting(chunkSize, ty), ty)) == chunkSize
  {
    var k := Fitting(chunkSize, ty);
    FittingExact(chunkSize, ty);
    if k == 1 {
      var one := Array(1, ty);
      assert ScalarPathsBefore(one, 1) == ScalarPathsBefore(one, 0) + Under([0], ScalarPaths(ty));
    } else {
      UnderNothing(ScalarPaths(Array(k, ty)));
    }
  }

  lemma UnderNothing(ps: seq<Path>)
    ensures Under([], ps) == ps
  {
    forall i | 0 <= i < |ps| ensures [] + ps[i] == ps[i] {}
  }

  lemma FittingExact(chunkSize: nat, ty: Ty)
    requires Size(ty) > 0 && WholePointees(chunkSize, ty)
    ensures Fitting(chunkSize, ty) >= 1 && Size(Array(Fitting(chunkSize, ty), ty)) == chunkSize
    ensures Fitting(chunkSize, ty) == 1 <==> chunkSize == Size(ty)
  {
    ExactQuotient(chunkSize, Size(ty));
  }

  lemma ExactQuotient(n: nat, s: nat)
    requires s > 0 && n > 0 && n % s == 0
    ensures n / s >= 1 && n / s * s == n && (n / s == 1 <==> n == s)
  {
    var k := n / s;
    assert n == k * s;
    if k > 1 { MulMonotone(2, k, s); }
  }

  lemma {:induction false} ScalarPathsAreScalar(t: Ty, k: nat)
    requires k < |ScalarPaths(t)|
    ensures ScalarPath(t, ScalarPaths(t)[k]) && Rank(t, ScalarPaths(t)[k]) == k
    decreases t, t.Arity() + 1
  {
    if !t.Scalar? { PathsBeforeAreScalar(t, t.Arity(), k); }
  }

  lemma {:induction false} PathsBeforeAreScalar(t: Ty, n: nat, k: nat)
    requires n <= t.Arity() && k < |ScalarPathsBefore(t, n)|
    ensures ScalarPath(t, ScalarPathsBefore(t, n)[k]) && Rank(t, ScalarPathsBefore(t, n)[k]) == k
    decreases t, n
  {
    var done := |ScalarPathsBefore(t, n - 1)|;
    if k < done {
      PathsBeforeAreScalar(t, n - 1, k);
    } else {
      var inner := ScalarPaths(t.Elem(n - 1))[k - done];
      ScalarPathsAreScalar(t.Elem(n - 1), k - done);
      assert ([n - 1] + inner)[1..] == inner;
      CountOfPaths(t, n - 1);
    }
  }

  lemma {:induction false} CountOfPaths(t: Ty, n: nat)
    requires n <= t.Arity()
    ensures |ScalarPathsBefore(t, n)| == CountBefore(t, n)
    decreases t, n
  {
    if n > 0 {
      var e := t.Elem(n - 1);
      CountOfPaths(t, n - 1);
      if !e.Scalar? {
        CountOfPaths(e, e.Arity());
        CountOfParts(e);
      }
    }
  }

  /** No scalar is copied twice and none is forgotten. */
  lemma EachScalarOnce(t: Ty)
    ensures |ScalarPaths(t)| == Count(t)
    ensures forall p :: ScalarPath(t, p) ==> Rank(t, p) < Count(t) && ScalarPaths(t)[Rank(t, p)] == p
    ensures forall i: nat, j: nat :: i < j < |ScalarPaths(t)| ==> ScalarPaths(t)[i] != ScalarPaths(t)[j]
  {
    if !t.Scalar? {
      CountOfPaths(t, t.Arity());
      CountOfParts(t);
    }
    forall p | ScalarPath(t, p) ensures Rank(t, p) < Count(t) && ScalarPaths(t)[Rank(t, p)] == p {
      RankInRange(t, p);
      ScalarPathsAreScalar(t, Rank(t, p));
      RankInjective(t, p, ScalarPaths(t)[Rank(t, p)]);
    }
    forall i: nat, j: nat | i < j < |ScalarPaths(t)| ensures ScalarPaths(t)[i] != ScalarPaths(t)[j] {
      ScalarPathsAreScalar(t, i);
      ScalarPathsAreScalar(t, j);
    }
  }

  /** A type is its own only scalar exactly when it is a scalar. */
  lemma EmptyPathIff(t: Ty)
    ensures [] in ScalarPaths(t) <==> t.Scalar?
  {
    if t.Scalar? {
      assert ScalarPaths(t)[0] == [];
    }
    if [] in ScalarPaths(t) {
      var k :| 0 <= k < |ScalarPaths(t)| && ScalarPaths(t)[k] == [];
      ScalarPathsAreScalar(t, k);
    }
  }

  lemma UnderOne(i: nat, ps: seq<Path>)
    ensures [] !in Under([i], ps)
  {
    forall k | 0 <= k < |ps| ensures Under([i], ps)[k] != [] {
      assert Under([i], ps)[k] == [i] + ps[k];
    }
  }

  /** No path is empty, as the lowering asserts at every scalar, exactly when the pointee is no
      scalar, or the chunk is one pointee or has room for two. */
  lemma NoEmptyPathIff(chunkSize: nat, ty: Ty)
    requires Size(ty) > 0
    ensures [] !in Emitted(chunkSize, ty) <==>
            !ty.Scalar? || chunkSize == Size(ty) || Fitting(chunkSize, ty) > 1
  {
    var t := if Fitting(chunkSize, ty) > 1 then Array(Fitting(chunkSize, ty), ty) else ty;
    EmptyPathIff(t);
    UnderOne(0, ScalarPaths(t));
    UnderNothing(ScalarPaths(t));
  }
}
