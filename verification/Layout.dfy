/** Byte layout of types under natural alignment: what an address into an aggregate means
    before the aggregate is taken apart.
 */
module Layout {
  import opened Types

  function PrimBytes(p: Prim): (b: nat)
    ensures b >= 1
  {
    match p
    case IntTy(bits) => IntBytes(bits, 1)
    case FloatTy => 4
    case DoubleTy => 8
    case PointerTy => 8
  }

  /** The smallest power-of-two multiple of `unit` bytes that holds `bits` bits. */
  function IntBytes(bits: nat, unit: nat): (b: nat)
    requires unit >= 1
    ensures b >= 1
    decreases bits - 8 * unit
  {
    if bits <= 8 * unit then unit else IntBytes(bits, 2 * unit)
  }

  lemma {:induction false} IntBytesHold(bits: nat, unit: nat)
    requires unit >= 1
    ensures bits <= 8 * IntBytes(bits, unit)
    decreases bits - 8 * unit
  {
    if bits > 8 * unit { IntBytesHold(bits, 2 * unit); }
  }

  function AlignUp(x: nat, a: nat): (r: nat)
    requires a >= 1
    ensures x <= r && r % a == 0
    ensures x % a == 0 ==> r == x
  {
    if x % a == 0 then x
    else
      AlignUpStep(x, a);
      x + (a - x % a)
  }

  lemma AlignUpLeast(x: nat, a: nat)
    requires a >= 1
    ensures x <= AlignUp(x, a) < x + a && AlignUp(x, a) % a == 0
  {
  }

  lemma AlignUpStep(x: nat, a: nat)
    requires a >= 1
    ensures (x + (a - x % a)) % a == 0
  {
    assert x + (a - x % a) == a * (x / a + 1);
    MultipleMod(x / a + 1, a);
  }

  lemma MultipleMod(k: nat, a: nat)
    requires a >= 1
    ensures (a * k) % a == 0
  {
    var q, r := (a * k) / a, (a * k) % a;
    assert (k - q) * a == a * k - a * q == r;
    if q < k {
      MulMonotone(1, k - q, a);
    } else {
      MulMonotone(k, q, a);
    }
  }

  lemma MulMonotone(a: nat, b: nat, s: nat)
    requires a <= b
    ensures a * s <= b * s
  {
    assert b * s == a * s + (b - a) * s;
  }

  lemma MultipleScales(x: nat, k: nat, a: nat)
    requires a >= 1 && x % a == 0
    ensures (k * x) % a == 0
  {
    var q := x / a;
    assert x == a * q;
    assert k * (a * q) == a * (k * q);
    MultipleMod(k * q, a);
  }

  function Max(a: nat, b: nat): nat { if a < b then b else a }

  function Align(t: Ty): (a: nat)
    ensures a >= 1
    decreases t, t.Arity() + 1
  {
    match t
    case Scalar(p) => PrimBytes(p)
    case Array(_, elem) => Align(elem)
    case Struct(fields) => AlignBefore(t, |fields|)
  }

  function AlignBefore(t: Ty, n: nat): (a: nat)
    requires n <= t.Arity()
    ensures a >= 1
    decreases t, n
  {
    if n == 0 then 1 else Max(AlignBefore(t, n - 1), Align(t.Elem(n - 1)))
  }

  /** Allocation size in bytes, tail padding included. */
  function Size(t: Ty): nat
    decreases t, t.Arity() + 1
  {
    match t
    case Scalar(p) => PrimBytes(p)
    case Array(len, elem) => len * Size(elem)
    case Struct(fields) => AlignUp(EndOf(t, |fields|), Align(t))
  }

  /** First byte after the first `n` parts of a struct. */
  function EndOf(t: Ty, n: nat): nat
    requires n <= t.Arity()
    decreases t, n
  {
    if n == 0 then 0
    else AlignUp(EndOf(t, n - 1), Align(t.Elem(n - 1))) + Size(t.Elem(n - 1))
  }

  /** Byte offset of part `i` inside its aggregate. */
  function PartOff(t: Ty, i: nat): nat
    requires i < t.Arity()
  {
    if t.Array? then i * Size(t.elem) else AlignUp(EndOf(t, i), Align(t.Elem(i)))
  }

  /** Byte offset of the part at a path. */
  function PathOff(t: Ty, p: Path): nat
    requires ValidPath(t, p)
    decreases p
  {
    if p == [] then 0 else PartOff(t, p[0]) + PathOff(t.Elem(p[0]), p[1..])
  }

  lemma {:induction false} EndOfMonotone(t: Ty, m: nat, n: nat)
    requires m <= n <= t.Arity()
    ensures EndOf(t, m) <= EndOf(t, n)
    decreases n
  {
    if m < n { EndOfMonotone(t, m, n - 1); }
  }

  /** Parts lie in order, do not overlap and stay inside the aggregate. */
  lemma PartsDisjoint(t: Ty, i: nat, j: nat)
    requires i < j <= t.Arity()
    ensures j < t.Arity() ==> PartOff(t, i) + Size(t.Elem(i)) <= PartOff(t, j)
    ensures PartOff(t, i) + Size(t.Elem(i)) <= Size(t)
  {
    if t.Array? { ElementsDisjoint(t, i, j); } else { FieldsDisjoint(t, i, j); }
  }

  lemma ElementsDisjoint(t: Ty, i: nat, j: nat)
    requires t.Array? && i < j <= t.len
    ensures PartOff(t, i) + Size(t.elem) <= j * Size(t.elem) && PartOff(t, i) + Size(t.elem) <= Size(t)
  {
    assert (i + 1) * Size(t.elem) == i * Size(t.elem) + Size(t.elem);
    MulMonotone(i + 1, j, Size(t.elem));
    MulMonotone(i + 1, t.len, Size(t.elem));
  }

  lemma FieldsDisjoint(t: Ty, i: nat, j: nat)
    requires t.Struct? && i < j <= t.Arity()
    ensures PartOff(t, i) + Size(t.Elem(i)) == EndOf(t, i + 1) <= EndOf(t, j) <= Size(t)
  {
    EndOfMonotone(t, i + 1, j);
    EndOfMonotone(t, j, t.Arity());
  }

  lemma {:induction false} PathInside(t: Ty, p: Path)
    requires ScalarPath(t, p)
    ensures PathOff(t, p) + Size(SubTy(t, p)) <= Size(t)
    ensures Size(SubTy(t, p)) >= 1
    decreases p
  {
    if p != [] {
      PathInside(t.Elem(p[0]), p[1..]);
      PartsDisjoint(t, p[0], t.Arity());
    }
  }

  lemma {:induction false} EndOfPart(t: Ty, i: nat)
    requires t.Struct? && i < t.Arity()
    ensures EndOf(t, i + 1) == PartOff(t, i) + Size(t.Elem(i))
  {
  }

  lemma {:induction false} FieldStarts(t: Ty, i: nat)
    requires t.Struct? && i < t.Arity()
    ensures EndOf(t, i) <= PartOff(t, i) < EndOf(t, i) + Align(t.Elem(i)) && PartOff(t, i) % Align(t.Elem(i)) == 0
    ensures i == 0 ==> PartOff(t, i) == 0
  {
    AlignUpLeast(EndOf(t, i), Align(t.Elem(i)));
  }

  lemma {:induction false} StructSize(t: Ty)
    requires t.Struct?
    ensures EndOf(t, t.Arity()) <= Size(t) < EndOf(t, t.Arity()) + Align(t) && Size(t) % Align(t) == 0
  {
    AlignUpLeast(EndOf(t, t.Arity()), Align(t));
  }

  /** Fields are packed: each starts at the first multiple of its alignment at or behind the end of the one
      before, the first one at 0, and the struct is as long as its alignment needs. */
  lemma {:induction false} FieldsPacked(t: Ty, i: nat)
    requires t.Struct? && i < t.Arity()
    ensures PartOff(t, i) % Align(t.Elem(i)) == 0
    ensures if i == 0 then PartOff(t, i) == 0
            else var e := PartOff(t, i - 1) + Size(t.Elem(i - 1)); e <= PartOff(t, i) < e + Align(t.Elem(i))
    ensures i + 1 == t.Arity() ==>
              var e := PartOff(t, i) + Size(t.Elem(i)); e <= Size(t) < e + Align(t) && Size(t) % Align(t) == 0
  {
    FieldStarts(t, i);
    if i > 0 { EndOfPart(t, i - 1); }
    EndOfPart(t, i);
    StructSize(t);
  }

  /** A struct is aligned as its most aligned field. */
  lemma {:induction false} AlignIsLargest(t: Ty, n: nat) returns (i: nat)
    requires 0 < n <= t.Arity()
    ensures i < n && AlignBefore(t, n) == Align(t.Elem(i))
    ensures forall j: nat :: j < n ==> Align(t.Elem(j)) <= AlignBefore(t, n)
    decreases n
  {
    i := n - 1;
    if n > 1 {
      var k := AlignIsLargest(t, n - 1);
      if Align(t.Elem(i)) < Align(t.Elem(k)) { i := k; }
    }
  }

  /** A byte offset names at most one scalar. */
  lemma {:induction false} PathOffInjective(t: Ty, p: Path, q: Path)
    requires ScalarPath(t, p) && ScalarPath(t, q) && PathOff(t, p) == PathOff(t, q)
    ensures p == q
    decreases p
  {
    if p != [] {
      PathInside(t.Elem(p[0]), p[1..]);
      PathInside(t.Elem(q[0]), q[1..]);
      if p[0] < q[0] {
        PartsDisjoint(t, p[0], q[0]);
      } else if q[0] < p[0] {
        PartsDisjoint(t, q[0], p[0]);
      }
      PathOffInjective(t.Elem(p[0]), p[1..], q[1..]);
      assert p == [p[0]] + p[1..] && q == [q[0]] + q[1..];
    }
  }

  lemma {:induction false} SizeIsAligned(t: Ty)
    ensures Size(t) % Align(t) == 0
    decreases t
  {
    match t
    case Scalar(_) =>
    case Struct(_) =>
    case Array(len, elem) =>
      SizeIsAligned(elem);
      MultipleScales(Size(elem), len, Align(elem));
  }

  /** All parts have one type. */
  predicate Uniform(t: Ty) {
    t.Arity() > 0 && forall i: nat :: i < t.Arity() ==> t.Elem(i) == t.Elem(0)
  }

  /** A struct whose fields all have one type is laid out like an array of that type. */
  lemma {:induction false} UniformStructIsArray(t: Ty, i: nat)
    requires t.Struct? && Uniform(t) && i < t.Arity()
    ensures PartOff(t, i) == i * Size(t.Elem(0))
    ensures EndOf(t, i) == i * Size(t.Elem(0))
    decreases i
  {
    var e := t.Elem(0);
    SizeIsAligned(e);
    if i > 0 {
      UniformStructIsArray(t, i - 1);
      assert t.Elem(i - 1) == e;
      assert EndOf(t, i) == (i - 1) * Size(e) + Size(e) == i * Size(e);
    }
    assert t.Elem(i) == e;
    MultipleScales(Size(e), i, Align(e));
  }
}
