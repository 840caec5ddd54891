/** Values of a type as trees, and reading and writing the scalar at a path. */
module Values {
  import opened Types

  datatype Value = Leaf(v: int) | Agg(parts: seq<Value>)

  predicate HasType(v: Value, t: Ty)
    decreases v
  {
    match v
    case Leaf(_) => t.Scalar?
    case Agg(parts) =>
      !t.Scalar? && |parts| == t.Arity() &&
      forall i: nat :: i < |parts| ==> HasType(parts[i], t.Elem(i))
  }

  function At(v: Value, t: Ty, p: Path): (r: Value)
    requires HasType(v, t) && ValidPath(t, p)
    ensures HasType(r, SubTy(t, p))
    decreases p
  {
    if p == [] then v else At(v.parts[p[0]], t.Elem(p[0]), p[1..])
  }

  function Read(v: Value, t: Ty, p: Path): int
    requires HasType(v, t) && ScalarPath(t, p)
  {
    At(v, t, p).v
  }

  function Write(v: Value, t: Ty, p: Path, x: int): (r: Value)
    requires HasType(v, t) && ScalarPath(t, p)
    ensures HasType(r, t)
    decreases p
  {
    if p == [] then Leaf(x)
    else Agg(v.parts[p[0] := Write(v.parts[p[0]], t.Elem(p[0]), p[1..], x)])
  }

  lemma {:induction false} ReadAfterWrite(v: Value, t: Ty, p: Path, x: int, q: Path)
    requires HasType(v, t) && ScalarPath(t, p) && ScalarPath(t, q)
    ensures Read(Write(v, t, p, x), t, q) == if p == q then x else Read(v, t, q)
    decreases p
  {
    if p != [] {
      if p[0] == q[0] {
        ReadAfterWrite(v.parts[p[0]], t.Elem(p[0]), p[1..], x, q[1..]);
        assert p == [p[0]] + p[1..] && q == [q[0]] + q[1..];
      }
    }
  }

  lemma {:induction false} AtPart(v: Value, t: Ty, p: Path, i: nat)
    requires HasType(v, t) && ValidPath(t, p) && i < SubTy(t, p).Arity()
    ensures ValidPath(t, p + [i]) && SubTy(t, p + [i]) == SubTy(t, p).Elem(i)
    ensures At(v, t, p + [i]) == At(v, t, p).parts[i]
    decreases p
  {
    if p == [] {
      assert [] + [i] == [i] && [i][1..] == [];
    } else {
      AtPart(v.parts[p[0]], t.Elem(p[0]), p[1..], i);
      assert (p + [i])[1..] == p[1..] + [i];
    }
  }
}
