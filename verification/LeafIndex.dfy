/** The leaf number that the disaggregated program computes at run time for an access with
    dynamic indices.

    The pass walks the base type along the index chain and emits one term a step; the sum of
    the terms is 32-bit arithmetic.
 */
module LeafIndex {
  import opened Types
  import opened Layout
  import opened Indices
  import opened Wrappers

  /** One emitted addition: a constant, or a constant times an index truncated to 32 bits. */
  datatype Term = Offset(k: nat) | Scaled(count: nat, idx: Index)

  function TermValue(term: Term, env: Env): int {
    match term
    case Offset(k) => Wrap(W32, k)
    case Scaled(count, idx) => Wrap(W32, Wrap(W32, count) * Wrap(W32, idx.Eval(env)))
  }

  /** The emitted additions, run in order from `acc`. */
  function SumTerms(acc: int, terms: seq<Term>, env: Env): int
    decreases terms
  {
    if terms == [] then acc
    else SumTerms(Wrap(W32, acc + TermValue(terms[0], env)), terms[1..], env)
  }

  // ----- the loops of the pass -----

  method CountSubelements(t: Ty) returns (counter: nat)
    ensures counter == Count(t)
    decreases t
  {
    counter := 0;
    match t {
      case Scalar(_) =>
        counter := counter + 1;
      case Array(len, elem) =>
        var c := CountSubelements(elem);
        counter := counter + len * c;
      case Struct(fields) =>
        for idx := 0 to |fields|
          invariant counter == CountBefore(t, idx)
        {
          var c := CountSubelements(fields[idx]);
          counter := counter + c;
        }
    }
  }

  /** The one type of all fields of a struct, if there is one. */
  method FieldType(t: Ty) returns (ty: Option<Ty>)
    requires t.Struct?
    ensures ty == if Uniform(t) then Some(t.Elem(0)) else None
  {
    ty := if |t.fields| > 0 then Some(t.fields[0]) else None;
    for i := 0 to |t.fields|
      invariant ty.Some? ==> |t.fields| > 0 && ty.value == t.fields[0]
      invariant ty.Some? ==> forall j: nat :: j < i ==> t.fields[j] == t.fields[0]
      invariant ty.None? && |t.fields| > 0 ==> exists j: nat :: j < i && t.fields[j] != t.fields[0]
    {
      if ty != Some(t.fields[i]) {
        ty := None;
      }
    }
    assert forall j: nat :: j < |t.fields| ==> t.Elem(j) == t.fields[j];
  }

  /** The terms for a chain of indices into `t`: the specification of the loop. */
  function IdxSum(t: Ty, chain: seq<Index>): Result<seq<Term>>
    decreases chain
  {
    if chain == [] then Ok([])
    else
      var step :- TermFor(t, chain[0]);
      var rest :- IdxSum(step.1, chain[1..]);
      Ok(step.0 + rest)
  }

  /** The term for one index into `t`, and the type it leads to. */
  function TermFor(t: Ty, idx: Index): Result<(seq<Term>, Ty)> {
    match t
    case Scalar(_) => Ok(([], t))
    case Array(_, elem) => Ok(([Scaled(Count(elem), idx)], elem))
    case Struct(fields) =>
      if idx.Const? then
        var k := idx.Eval(map[]);
        if 0 <= k < |fields| then Ok(([Offset(CountBefore(t, k))], fields[k])) else Err(IndexOutOfRange)
      else if Uniform(t) then Ok(([Scaled(Count(t.Elem(0)), idx)], t.Elem(0)))
      else Err(NonConstantStructIndex)
  }

  method BuildIdxSum(t: Ty, chain: seq<Index>) returns (r: Result<seq<Term>>)
    ensures r == IdxSum(t, chain)
  {
    var baseTypeRec, terms := t, [];
    assert chain[0..] == chain && forall rest: seq<Term> :: terms + rest == rest;
    for n := 0 to |chain|
      invariant IdxSum(t, chain) ==
                var rest := IdxSum(baseTypeRec, chain[n..]);
                if rest.Ok? then Ok(terms + rest.value) else rest
    {
      var idx := chain[n];
      assert chain[n..][0] == idx && chain[n..][1..] == chain[n + 1..];
      ghost var was := terms;
      match baseTypeRec {
        case Struct(fields) =>
          if idx.Const? {
            var k := idx.Eval(map[]);
            if !(0 <= k < |fields|) {
              return Err(IndexOutOfRange);
            }
            var offset := 0;
            for i := 0 to k
              invariant offset == CountBefore(baseTypeRec, i)
            {
              var c := CountSubelements(fields[i]);
              offset := offset + c;
            }
            terms := terms + [Offset(offset)];
            assert forall rest: seq<Term> :: was + ([Offset(offset)] + rest) == terms + rest;
            baseTypeRec := fields[k];
          } else {
            var ty := FieldType(baseTypeRec);
            if ty.None? {
              return Err(NonConstantStructIndex);
            }
            var c := CountSubelements(ty.value);
            terms := terms + [Scaled(c, idx)];
            assert forall rest: seq<Term> :: was + ([Scaled(c, idx)] + rest) == terms + rest;
            baseTypeRec := ty.value;
          }
        case Array(_, elem) =>
          var c := CountSubelements(elem);
          terms := terms + [Scaled(c, idx)];
          assert forall rest: seq<Term> :: was + ([Scaled(c, idx)] + rest) == terms + rest;
          baseTypeRec := elem;
        case Scalar(_) =>
          assert forall rest: seq<Term> :: was + ([] + rest) == terms + rest;
      }
    }
    assert chain[|chain|..] == [];
    assert terms + [] == terms;
    return Ok(terms);
  }

  // ----- the sum is the rank of the accessed leaf -----

  /** The run-time values of a chain form a scalar path. */
  ghost predicate Reaches(t: Ty, chain: seq<Index>, env: Env, p: Path) {
    |chain| == |p| && Evals(chain, env) == p && ScalarPath(t, p)
  }

  lemma ReachesTail(t: Ty, chain: seq<Index>, env: Env, p: Path)
    requires Reaches(t, chain, env, p) && p != []
    ensures Reaches(t.Elem(p[0]), chain[1..], env, p[1..])
    ensures chain[0].Eval(env) == p[0] && p[0] < t.Arity()
  {
    assert Evals(chain[1..], env) == Evals(chain, env)[1..];
  }

  lemma {:induction false} UniformCountBefore(t: Ty, n: nat)
    requires t.Struct? && Uniform(t) && n <= t.Arity()
    ensures CountBefore(t, n) == n * Count(t.Elem(0))
  {
    if n > 0 {
      UniformCountBefore(t, n - 1);
      assert t.Elem(n - 1) == t.Elem(0);
    }
  }

  /** The leaves before a part, together with all leaves of that part, are among the leaves
      of the type: no partial sum leaves the range of the total. */
  lemma {:induction false} PartialRankBound(t: Ty, p: Path)
    requires ValidPath(t, p)
    ensures Rank(t, p) + Count(SubTy(t, p)) <= Count(t)
    decreases p
  {
    if p != [] {
      PartialRankBound(t.Elem(p[0]), p[1..]);
      CountOfParts(t);
      CountBeforeMonotone(t, p[0], t.Arity());
    }
  }

  lemma WrapSmall(x: int)
    requires 0 <= x < Half(W32)
    ensures Wrap(W32, x) == x
  {
  }

  lemma ScaledIsExact(count: nat, idx: Index, env: Env, k: nat)
    requires idx.Eval(env) == k && 1 <= count < Half(W32) && k * count < Half(W32)
    ensures TermValue(Scaled(count, idx), env) == k * count
  {
    MulMonotone(1, count, k);
    WrapSmall(count);
    WrapSmall(k);
    WrapSmall(k * count);
  }

  /** The term emitted for one step is exact: it adds the leaves before the chosen part. */
  lemma TermIsExact(t: Ty, idx: Index, env: Env, k: nat)
    requires k < t.Arity() && idx.Eval(env) == k
    requires CountBefore(t, k) < Half(W32) && 1 <= Count(t.Elem(k)) < Half(W32)
    requires TermFor(t, idx).Ok?
    ensures TermFor(t, idx).value.1 == t.Elem(k)
    ensures |TermFor(t, idx).value.0| == 1
    ensures TermValue(TermFor(t, idx).value.0[0], env) == CountBefore(t, k)
  {
    if t.Array? {
      ArrayCountBefore(t, k);
      ScaledIsExact(Count(t.elem), idx, env, k);
    } else if idx.Const? {
      WrapSmall(CountBefore(t, k));
    } else {
      UniformCountBefore(t, k);
      assert t.Elem(k) == t.Elem(0);
      ScaledIsExact(Count(t.Elem(0)), idx, env, k);
    }
  }

  /** For an in-bounds access the emitted 32-bit sum is the rank of the accessed leaf, although
      every intermediate value is truncated. */
  lemma {:induction false} IdxSumIsRank(t: Ty, chain: seq<Index>, env: Env, p: Path, acc: nat)
    requires Reaches(t, chain, env, p) && IdxSum(t, chain).Ok?
    requires acc + Count(t) < Half(W32)
    ensures SumTerms(acc, IdxSum(t, chain).value, env) == acc + Rank(t, p)
    decreases p
  {
    if p != [] {
      ReachesTail(t, chain, env, p);
      var k, e := p[0], t.Elem(p[0]);
      RankInRange(e, p[1..]);
      CountOfParts(t);
      CountBeforeMonotone(t, k, t.Arity());
      TermIsExact(t, chain[0], env, k);
      var step := TermFor(t, chain[0]).value;
      var rest := IdxSum(e, chain[1..]).value;
      assert (step.0 + rest)[0] == step.0[0] && (step.0 + rest)[1..] == rest;
      IdxSumIsRank(e, chain[1..], env, p[1..], acc + CountBefore(t, k));
    }
  }
}
