/** First-class types as the disaggregation passes see them, paths into a type, and the
    two ways the passes number the leaves of a type.

    An aggregate is a struct or an array; everything else is a scalar.  A path is the list
    of subelement numbers that leads from a type to one of its parts.
 */
module Types {

  datatype Prim = IntTy(bits: nat) | FloatTy | DoubleTy | PointerTy

  datatype Ty = Scalar(prim: Prim) | Struct(fields: seq<Ty>) | Array(len: nat, elem: Ty) {

    function Arity(): nat {
      match this
      case Scalar(_) => 0
      case Struct(fields) => |fields|
      case Array(len, _) => len
    }

    function Elem(i: nat): (e: Ty)
      requires i < Arity()
      ensures e < this
    {
      if Struct? then fields[i] else elem
    }
  }

  type Path = seq<nat>

  /** A variable: an alloca or a global. */
  type Id = nat

  predicate ValidPath(t: Ty, p: Path)
    decreases p
  {
    p == [] || (p[0] < t.Arity() && ValidPath(t.Elem(p[0]), p[1..]))
  }

  function SubTy(t: Ty, p: Path): Ty
    requires ValidPath(t, p)
    decreases p
  {
    if p == [] then t else SubTy(t.Elem(p[0]), p[1..])
  }

  predicate ScalarPath(t: Ty, p: Path) {
    ValidPath(t, p) && SubTy(t, p).Scalar?
  }

  /** A path to a part that has no parts of its own: a scalar or an empty aggregate. */
  predicate LeafPath(t: Ty, p: Path) {
    ValidPath(t, p) && SubTy(t, p).Arity() == 0
  }

  /** Number of scalars in a type: an empty aggregate holds none. */
  function Count(t: Ty): nat
    decreases t, t.Arity() + 1
  {
    match t
    case Scalar(_) => 1
    case Array(len, elem) => len * Count(elem)
    case Struct(fields) => CountBefore(t, |fields|)
  }

  /** Number of scalars in the first `n` parts of a type. */
  function CountBefore(t: Ty, n: nat): nat
    requires n <= t.Arity()
    decreases t, n
  {
    if n == 0 then 0 else CountBefore(t, n - 1) + Count(t.Elem(n - 1))
  }

  lemma {:induction false} ArrayCountBefore(t: Ty, n: nat)
    requires t.Array? && n <= t.len
    ensures CountBefore(t, n) == n * Count(t.elem)
  {
    if n > 0 { ArrayCountBefore(t, n - 1); }
  }

  lemma CountOfParts(t: Ty)
    requires !t.Scalar?
    ensures Count(t) == CountBefore(t, t.Arity())
  {
    if t.Array? { ArrayCountBefore(t, t.len); }
  }

  lemma {:induction false} CountBeforeMonotone(t: Ty, m: nat, n: nat)
    requires m <= n <= t.Arity()
    ensures CountBefore(t, m) <= CountBefore(t, n)
    ensures m < n ==> CountBefore(t, m) + Count(t.Elem(m)) <= CountBefore(t, n)
    decreases n
  {
    if m < n { CountBeforeMonotone(t, m, n - 1); }
  }

  /** The number of the scalar at `p`, counting scalars only. */
  function Rank(t: Ty, p: Path): nat
    requires ValidPath(t, p)
    decreases p
  {
    if p == [] then 0 else CountBefore(t, p[0]) + Rank(t.Elem(p[0]), p[1..])
  }

  /** The path of the scalar with number `k`. */
  function Unrank(t: Ty, k: nat): (p: Path)
    requires k < Count(t)
    ensures ScalarPath(t, p) && Rank(t, p) == k
    decreases t, 0
  {
    if t.Scalar? then []
    else
      CountOfParts(t);
      var i := PartHolding(t, k, t.Arity());
      [i] + Unrank(t.Elem(i), k - CountBefore(t, i))
  }

  /** The part, among the first `n`, that holds the scalar with number `k`. */
  function PartHolding(t: Ty, k: nat, n: nat): (i: nat)
    requires n <= t.Arity() && k < CountBefore(t, n)
    ensures i < n && CountBefore(t, i) <= k < CountBefore(t, i + 1)
  {
    if CountBefore(t, n - 1) <= k then n - 1 else PartHolding(t, k, n - 1)
  }

  lemma {:induction false} RankInRange(t: Ty, p: Path)
    requires ScalarPath(t, p)
    ensures Rank(t, p) < Count(t)
    decreases p
  {
    if p != [] {
      RankInRange(t.Elem(p[0]), p[1..]);
      CountOfParts(t);
      CountBeforeMonotone(t, p[0], t.Arity());
    }
  }

  lemma {:induction false} RankInjective(t: Ty, p: Path, q: Path)
    requires ScalarPath(t, p) && ScalarPath(t, q) && Rank(t, p) == Rank(t, q)
    ensures p == q
    decreases p
  {
    if p != [] {
      RankInRange(t.Elem(p[0]), p[1..]);
      RankInRange(t.Elem(q[0]), q[1..]);
      if p[0] < q[0] {
        CountBeforeMonotone(t, p[0], q[0]);
      } else if q[0] < p[0] {
        CountBeforeMonotone(t, q[0], p[0]);
      }
      RankInjective(t.Elem(p[0]), p[1..], q[1..]);
      assert p == [p[0]] + p[1..] && q == [q[0]] + q[1..];
    }
  }

  /** Ranking is a bijection from the scalar paths of a type onto [0, Count). */
  lemma RankBijection(t: Ty)
    ensures forall p :: ScalarPath(t, p) ==> Rank(t, p) < Count(t) && Unrank(t, Rank(t, p)) == p
    ensures forall k: nat :: k < Count(t) ==> ScalarPath(t, Unrank(t, k)) && Rank(t, Unrank(t, k)) == k
  {
    forall p | ScalarPath(t, p)
      ensures Rank(t, p) < Count(t) && Unrank(t, Rank(t, p)) == p
    {
      RankInRange(t, p);
      RankInjective(t, p, Unrank(t, Rank(t, p)));
    }
  }

  // ----- the depth-first list of leaves -----

  type LeafEntry = (Ty, Path)

  function Prefixed(pre: Path, entries: seq<LeafEntry>): (r: seq<LeafEntry>)
    ensures |r| == |entries|
    ensures forall k :: 0 <= k < |r| ==> r[k] == (entries[k].0, pre + entries[k].1)
  {
    seq(|entries|, k requires 0 <= k < |entries| => (entries[k].0, pre + entries[k].1))
  }

  /** The leaves of a type in depth-first order; an empty aggregate is one leaf. */
  function Leaves(t: Ty): seq<LeafEntry>
    decreases t, t.Arity() + 1
  {
    if t.Arity() == 0 then [(t, [])] else LeavesBefore(t, t.Arity())
  }

  function LeavesBefore(t: Ty, n: nat): seq<LeafEntry>
    requires n <= t.Arity()
    decreases t, n
  {
    if n == 0 then [] else LeavesBefore(t, n - 1) + Prefixed([n - 1], Leaves(t.Elem(n - 1)))
  }

  /** The place of a leaf in the depth-first list. */
  function Position(t: Ty, p: Path): nat
    requires ValidPath(t, p)
    decreases p
  {
    if p == [] then 0 else |LeavesBefore(t, p[0])| + Position(t.Elem(p[0]), p[1..])
  }

  lemma {:induction false} LeavesBeforePrefix(t: Ty, m: nat, n: nat)
    requires m < n <= t.Arity()
    ensures LeavesBefore(t, m) + Prefixed([m], Leaves(t.Elem(m))) <= LeavesBefore(t, n)
    decreases n
  {
    if m < n - 1 { LeavesBeforePrefix(t, m, n - 1); }
  }

  lemma {:induction false} PositionHolds(t: Ty, p: Path)
    requires LeafPath(t, p)
    ensures Position(t, p) < |Leaves(t)|
    ensures Leaves(t)[Position(t, p)] == (SubTy(t, p), p)
    decreases p
  {
    if p != [] {
      var e := t.Elem(p[0]);
      PositionHolds(e, p[1..]);
      LeavesBeforePrefix(t, p[0], t.Arity());
      assert [p[0]] + p[1..] == p;
      var front := LeavesBefore(t, p[0]) + Prefixed([p[0]], Leaves(e));
      assert front[Position(t, p)] == (SubTy(t, p), p);
    }
  }

  lemma {:induction false} LeavesAreLeaves(t: Ty, k: nat)
    requires k < |Leaves(t)|
    ensures LeafPath(t, Leaves(t)[k].1) && Leaves(t)[k].0 == SubTy(t, Leaves(t)[k].1)
    ensures Position(t, Leaves(t)[k].1) == k
    decreases t, t.Arity() + 1
  {
    if t.Arity() != 0 { LeavesBeforeAreLeaves(t, t.Arity(), k); }
  }

  lemma {:induction false} LeavesBeforeAreLeaves(t: Ty, n: nat, k: nat)
    requires n <= t.Arity() && k < |LeavesBefore(t, n)|
    ensures var e := LeavesBefore(t, n)[k];
            LeafPath(t, e.1) && e.0 == SubTy(t, e.1) && Position(t, e.1) == k
    decreases t, n
  {
    var done := |LeavesBefore(t, n - 1)|;
    if k < done {
      LeavesBeforeAreLeaves(t, n - 1, k);
    } else {
      var inner := Leaves(t.Elem(n - 1))[k - done];
      LeavesAreLeaves(t.Elem(n - 1), k - done);
      assert ([n - 1] + inner.1)[1..] == inner.1;
    }
  }

  function ScalarsIn(entries: seq<LeafEntry>): nat {
    if entries == [] then 0
    else ScalarsIn(entries[..|entries| - 1]) + if entries[|entries| - 1].0.Scalar? then 1 else 0
  }

  lemma {:induction false} ScalarsInConcat(a: seq<LeafEntry>, b: seq<LeafEntry>)
    ensures ScalarsIn(a + b) == ScalarsIn(a) + ScalarsIn(b)
    decreases |b|
  {
    if b == [] {
      assert a + b == a;
    } else {
      var init := b[..|b| - 1];
      ScalarsInConcat(a, init);
      assert (a + b)[..|a + b| - 1] == a + init;
    }
  }

  lemma {:induction false} ScalarsInPrefixed(pre: Path, a: seq<LeafEntry>)
    ensures ScalarsIn(Prefixed(pre, a)) == ScalarsIn(a)
    decreases |a|
  {
    if a != [] {
      ScalarsInPrefixed(pre, a[..|a| - 1]);
      assert Prefixed(pre, a)[..|a| - 1] == Prefixed(pre, a[..|a| - 1]);
    }
  }

  lemma {:induction false} CountIsScalarLeaves(t: Ty)
    ensures ScalarsIn(Leaves(t)) == Count(t)
    decreases t, t.Arity() + 1
  {
    if t.Scalar? {
      assert Leaves(t)[..0] == [];
    } else {
      CountOfParts(t);
      if t.Arity() == 0 {
        assert Leaves(t)[..0] == [];
      } else {
        CountBeforeIsScalarLeaves(t, t.Arity());
      }
    }
  }

  lemma {:induction false} CountBeforeIsScalarLeaves(t: Ty, n: nat)
    requires n <= t.Arity()
    ensures ScalarsIn(LeavesBefore(t, n)) == CountBefore(t, n)
    decreases t, n
  {
    if n > 0 {
      CountBeforeIsScalarLeaves(t, n - 1);
      CountIsScalarLeaves(t.Elem(n - 1));
      ScalarsInPrefixed([n - 1], Leaves(t.Elem(n - 1)));
      ScalarsInConcat(LeavesBefore(t, n - 1), Prefixed([n - 1], Leaves(t.Elem(n - 1))));
    }
  }

  /** The rank of a leaf is the number of scalars listed before it. */
  lemma {:induction false} RankCountsScalars(t: Ty, p: Path)
    requires LeafPath(t, p)
    ensures Position(t, p) < |Leaves(t)|
    ensures Rank(t, p) == ScalarsIn(Leaves(t)[..Position(t, p)])
    decreases p
  {
    PositionHolds(t, p);
    if p != [] {
      RankCountsScalars(t.Elem(p[0]), p[1..]);
      ListedBefore(t, p[0], Position(t.Elem(p[0]), p[1..]));
      CountBeforeIsScalarLeaves(t, p[0]);
    } else {
      assert Leaves(t)[..0] == [];
    }
  }

  /** The scalars listed before leaf `q` of a part. */
  lemma ListedBefore(t: Ty, i: nat, q: nat)
    requires i < t.Arity() && q <= |Leaves(t.Elem(i))|
    ensures |LeavesBefore(t, i)| + q <= |Leaves(t)|
    ensures ScalarsIn(Leaves(t)[..|LeavesBefore(t, i)| + q]) ==
            ScalarsIn(LeavesBefore(t, i)) + ScalarsIn(Leaves(t.Elem(i))[..q])
  {
    ListedFront(t, i, q);
    ScalarsInConcat(LeavesBefore(t, i), Prefixed([i], Leaves(t.Elem(i))[..q]));
    ScalarsInPrefixed([i], Leaves(t.Elem(i))[..q]);
  }

  lemma ListedFront(t: Ty, i: nat, q: nat)
    requires i < t.Arity() && q <= |Leaves(t.Elem(i))|
    ensures |LeavesBefore(t, i)| + q <= |Leaves(t)|
    ensures Leaves(t)[..|LeavesBefore(t, i)| + q] == LeavesBefore(t, i) + Prefixed([i], Leaves(t.Elem(i))[..q])
  {
    LeavesBeforePrefix(t, i, t.Arity());
    FrontOf(LeavesBefore(t, i), Prefixed([i], Leaves(t.Elem(i))), Leaves(t), q);
    PrefixedFront([i], Leaves(t.Elem(i)), q);
  }

  lemma FrontOf(front: seq<LeafEntry>, inner: seq<LeafEntry>, all: seq<LeafEntry>, q: nat)
    requires front + inner <= all && q <= |inner|
    ensures |front| + q <= |all| && all[..|front| + q] == front + inner[..q]
  {
    assert (front + inner)[..|front| + q] == front + inner[..q];
  }

  lemma PrefixedFront(pre: Path, entries: seq<LeafEntry>, q: nat)
    requires q <= |entries|
    ensures Prefixed(pre, entries)[..q] == Prefixed(pre, entries[..q])
  {
  }

  lemma {:induction false} AllScalarsIff(entries: seq<LeafEntry>)
    ensures ScalarsIn(entries) <= |entries|
    ensures ScalarsIn(entries) == |entries| <==> forall k :: 0 <= k < |entries| ==> entries[k].0.Scalar?
    decreases |entries|
  {
    if entries != [] {
      var init := entries[..|entries| - 1];
      AllScalarsIff(init);
      assert forall k :: 0 <= k < |init| ==> entries[k] == init[k];
    }
  }

  /** No empty aggregate is listed before the leaf at `p`. */
  predicate NoEmptyBefore(t: Ty, p: Path)
    requires ValidPath(t, p)
  {
    forall k :: 0 <= k < Position(t, p) && k < |Leaves(t)| ==> Leaves(t)[k].0.Scalar?
  }

  /** The two numberings agree at a leaf exactly when no empty aggregate is listed before it. */
  lemma RankIsPositionIff(t: Ty, p: Path)
    requires LeafPath(t, p)
    ensures Rank(t, p) <= Position(t, p)
    ensures Rank(t, p) == Position(t, p) <==> NoEmptyBefore(t, p)
  {
    RankCountsScalars(t, p);
    var before := Leaves(t)[..Position(t, p)];
    AllScalarsIff(before);
    assert forall k :: 0 <= k < |before| ==> before[k] == Leaves(t)[k];
  }

  /** Behind an empty struct the two numberings differ: the first scalar is listed second. */
  lemma EmptyAggregateShifts()
    ensures var t := Struct([Struct([]), Scalar(FloatTy)]);
            ScalarPath(t, [1]) && Rank(t, [1]) == 0 && Position(t, [1]) == 1 && !NoEmptyBefore(t, [1])
  {
    var empty, f := Struct([]), Scalar(FloatTy);
    var t := Struct([empty, f]);
    assert t.Elem(0) == empty && t.Elem(1) == f && [1][1..] == [];
    assert Leaves(empty) == [(empty, [])];
    assert LeavesBefore(t, 1) == LeavesBefore(t, 0) + Prefixed([0], Leaves(empty));
    assert CountBefore(t, 1) == CountBefore(t, 0) + Count(empty);
    RankIsPositionIff(t, [1]);
  }

  // ----- the size of a type, the measure of the worklists over types -----

  function Nodes(t: Ty): nat
    decreases t, t.Arity() + 1
  {
    1 + NodesBefore(t, t.Arity())
  }

  function NodesBefore(t: Ty, n: nat): nat
    requires n <= t.Arity()
    decreases t, n
  {
    if n == 0 then 0 else NodesBefore(t, n - 1) + Nodes(t.Elem(n - 1))
  }

  function Weight(ts: seq<Ty>): nat {
    if ts == [] then 0 else Nodes(ts[0]) + Weight(ts[1..])
  }
}
