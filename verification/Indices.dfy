/** Integer index operands of the compiled program, with their widths. */
module Indices {

  datatype Width = W32 | W64

  type Reg = nat
  type Env = map<Reg, int>

  function Get(env: Env, r: Reg): int {
    if r in env then env[r] else 0
  }

  /** Half the number of values of a width: values run from -Half to Half - 1. */
  function Half(w: Width): int {
    if w == W32 then 0x8000_0000 else 0x8000_0000_0000_0000
  }

  predicate Fits(w: Width, x: int) {
    -Half(w) <= x < Half(w)
  }

  /** The value a two's-complement integer of width `w` keeps of `x`. */
  function Wrap(w: Width, x: int): int
    decreases if x < 0 then -x else x + 1
  {
    if x < -Half(w) then Wrap(w, x + 2 * Half(w))
    else if x >= Half(w) then Wrap(w, x - 2 * Half(w))
    else x
  }

  lemma WrapFits(w: Width, x: int)
    ensures Fits(w, Wrap(w, x))
    decreases if x < 0 then -x else x + 1
  {
    if x < -Half(w) { WrapFits(w, x + 2 * Half(w)); }
    else if x >= Half(w) { WrapFits(w, x - 2 * Half(w)); }
  }

  /** It differs from `x` by a multiple of the number of values of that width. */
  lemma {:induction false} WrapCongruent(w: Width, x: int) returns (n: int)
    ensures Wrap(w, x) == x + n * (2 * Half(w))
    decreases if x < 0 then -x else x + 1
  {
    n := 0;
    if x < -Half(w) {
      var m := WrapCongruent(w, x + 2 * Half(w));
      n := m + 1;
    } else if x >= Half(w) {
      var m := WrapCongruent(w, x - 2 * Half(w));
      n := m - 1;
    }
  }

  /** So it is the only number that fits the width and does. */
  lemma {:induction false} WrapIff(w: Width, x: int, y: int, n: int)
    requires y == x + n * (2 * Half(w)) && Fits(w, y)
    ensures Wrap(w, x) == y
  {
    var m := WrapCongruent(w, x);
    WrapFits(w, x);
    var h := 2 * Half(w);
    assert Wrap(w, x) - y == (m - n) * h;
    SmallMultiple(m - n, h);
  }

  lemma SmallMultiple(k: int, h: int)
    requires h > 0 && -h < k * h < h
    ensures k == 0
  {
  }

  /** An index operand.  `Sum` is the addition that flattening emits: its left operand is
      sign-extended or truncated to the width of its right operand first. */
  datatype Index = Const(v: int, w: Width) | Reg(r: Reg, w: Width) | Sum(a: Index, b: Index) {
    function WidthOf(): Width {
      match this
      case Const(_, w) => w
      case Reg(_, w) => w
      case Sum(_, b) => b.WidthOf()
    }

    function Eval(env: Env): int {
      match this
      case Const(v, w) => Wrap(w, v)
      case Reg(r, w) => Wrap(w, Get(env, r))
      case Sum(a, b) => Wrap(b.WidthOf(), a.Eval(env) + b.Eval(env))
    }
  }

  function Evals(idxs: seq<Index>, env: Env): (r: seq<int>)
    ensures |r| == |idxs|
    ensures forall i :: 0 <= i < |r| ==> r[i] == idxs[i].Eval(env)
  {
    seq(|idxs|, i requires 0 <= i < |idxs| => idxs[i].Eval(env))
  }

  /** Addition of two index operands: folded for constants, an instruction otherwise. */
  function Add(a: Index, b: Index): Index {
    if a.Const? && b.Const? then
      Const(Wrap(b.w, Wrap(a.w, a.v) + Wrap(b.w, b.v)), b.w)
    else
      Sum(a, b)
  }

  lemma AddEval(a: Index, b: Index, env: Env)
    ensures Add(a, b).Eval(env) == Wrap(b.WidthOf(), a.Eval(env) + b.Eval(env))
    ensures Add(a, b).WidthOf() == b.WidthOf() && (Add(a, b).Const? <==> a.Const? && b.Const?)
  {
    WrapFits(b.WidthOf(), a.Eval(env) + b.Eval(env));
  }
}
