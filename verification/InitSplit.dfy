/** Lowering of a chunk initialization: one wide constant becomes one constant for each scalar
    behind the casted pointer.
 */
module InitSplit {
  import opened Types
  import opened Layout

  /** A constant, bit by bit, least significant first. */
  type Bits = seq<bool>

  /** Size in bits as the data layout counts it: scalars without their tail padding. */
  function PrimBits(p: Prim): nat {
    match p
    case IntTy(bits) => bits
    case FloatTy => 32
    case DoubleTy => 64
    case PointerTy => 64
  }

  function SizeInBits(t: Ty): nat {
    if t.Scalar? then PrimBits(t.prim) else 8 * Size(t)
  }

  /** The constant with all bits outside [lo, hi) cleared. */
  function Mask(val: Bits, lo: nat, hi: nat): (r: Bits)
    ensures |r| == |val|
    ensures forall b :: 0 <= b < |r| ==> r[b] == (lo <= b < hi && val[b])
  {
    seq(|val|, b requires 0 <= b < |val| => lo <= b < hi && val[b])
  }

  // ----- from the masked constant to the stored value -----

  /** The low 64 bits of a constant; a shorter one is sign-extended. */
  function SignedWord(val: Bits): (w: Bits)
    ensures |w| == 64
  {
    seq(64, b requires 0 <= b < 64 => if b < |val| then val[b] else val != [] && val[|val| - 1])
  }

  /** A word cut to a width, or zero-extended. */
  function FromWord(word: Bits, width: nat): (r: Bits)
    ensures |r| == width
  {
    seq(width, b requires 0 <= b < width => b < |word| && word[b])
  }

  /** The constant is the sign extension of its low 64 bits. */
  predicate FitsWord(val: Bits) {
    |val| <= 64 || forall b: nat :: 64 <= b < |val| ==> val[b] == val[63]
  }

  /** A scalar reached: its path, the masked constant it is given, the bit range it stands for. */
  datatype Piece = Piece(path: Path, bits: Bits, lo: nat, hi: nat, ty: Ty)

  /** One emitted store: where, and what. */
  datatype Store = Store(path: Path, value: Bits)

  /** The value that is stored: the masked constant goes through a machine word and is cut to the width
      of the scalar, but not moved down to bit 0 first. */
  function Stored(piece: Piece): (r: Bits)
    ensures |r| == SizeInBits(piece.ty)
  {
    FromWord(SignedWord(piece.bits), SizeInBits(piece.ty))
  }

  function Stores(pieces: seq<Piece>): (r: seq<Store>)
    ensures |r| == |pieces|
    ensures forall i :: 0 <= i < |r| ==> r[i] == Store(pieces[i].path, Stored(pieces[i]))
  {
    seq(|pieces|, i requires 0 <= i < |pieces| => Store(pieces[i].path, Stored(pieces[i])))
  }

  lemma StoresConcat(a: seq<Piece>, b: seq<Piece>)
    ensures Stores(a + b) == Stores(a) + Stores(b)
  {
  }

  // ----- the number a constant stands for -----

  function Pow2(n: nat): (r: nat)
    ensures r > 0
  {
    if n == 0 then 1 else 2 * Pow2(n - 1)
  }

  function Number(val: Bits): nat {
    if val == [] then 0
    else Number(val[..|val| - 1]) + if val[|val| - 1] then Pow2(|val| - 1) else 0
  }

  /** The number in two's complement. */
  function SignedNumber(val: Bits): int {
    Number(val) - if val != [] && val[|val| - 1] then Pow2(|val|) else 0
  }

  lemma {:induction false} NumberBelow(val: Bits)
    ensures Number(val) < Pow2(|val|)
    decreases |val|
  {
    if val != [] { NumberBelow(val[..|val| - 1]); }
  }

  lemma {:induction false} NumberInjective(a: Bits, b: Bits)
    requires |a| == |b| && Number(a) == Number(b)
    ensures a == b
    decreases |a|
  {
    if a != [] {
      var n := |a| - 1;
      NumberBelow(a[..n]);
      NumberBelow(b[..n]);
      NumberInjective(a[..n], b[..n]);
      assert a == a[..n] + [a[n]] && b == b[..n] + [b[n]];
    }
  }

  lemma SignedInjective(a: Bits, b: Bits)
    requires |a| == |b| && SignedNumber(a) == SignedNumber(b)
    ensures a == b
  {
    NumberBelow(a);
    NumberBelow(b);
    NumberInjective(a, b);
  }

  /** A constant with copies of its sign in front. */
  function Extended(val: Bits, n: nat): (r: Bits)
    requires |val| <= n
    ensures |r| == n && (forall b {:trigger r[b]} :: 0 <= b < |val| ==> r[b] == val[b])
    ensures forall b {:trigger r[b]} :: |val| <= b < n ==> r[b] == (val != [] && val[|val| - 1])
  {
    val + seq(n - |val|, b => val != [] && val[|val| - 1])
  }

  lemma {:induction false} ExtendedNumber(val: Bits, n: nat)
    requires |val| <= n
    ensures SignedNumber(Extended(val, n)) == SignedNumber(val)
    decreases n
  {
    var e := Extended(val, n);
    if n == |val| {
      assert e == val;
    } else {
      ExtendedNumber(val, n - 1);
      assert e[..n - 1] == Extended(val, n - 1);
      assert n > 1 && val != [] ==> e[n - 2] == e[n - 1];
    }
  }

  /** The machine word stands for the same number exactly when the constant is the sign extension of its
      low 64 bits, as a constant of at most 64 bits always is. */
  lemma WordKeepsNumber(val: Bits)
    ensures SignedNumber(SignedWord(val)) == SignedNumber(val) <==> FitsWord(val)
  {
    var word := SignedWord(val);
    if |val| <= 64 {
      assert word == Extended(val, 64);
      ExtendedNumber(val, 64);
    } else {
      ExtendedNumber(word, |val|);
      if FitsWord(val) { assert val == Extended(word, |val|); }
      if SignedNumber(word) == SignedNumber(val) { SignedInjective(Extended(word, |val|), val); }
    }
  }

  // ----- the recursion -----

  /** The bit range of part `i` of an aggregate that occupies [lo, hi): up to the next field in a
      struct, one element in an array. */
  function PartLo(t: Ty, i: nat, lo: nat): nat
    requires i < t.Arity()
  {
    if t.Struct? then lo + PartOff(t, i) * 8 else lo + i * SizeInBits(t.elem)
  }

  function PartHi(t: Ty, i: nat, lo: nat, hi: nat): nat
    requires i < t.Arity()
  {
    if t.Struct? then (if i + 1 == t.Arity() then hi else lo + PartOff(t, i + 1) * 8)
    else lo + (i + 1) * SizeInBits(t.elem)
  }

  function Pieces(t: Ty, val: Bits, path: Path, lo: nat, hi: nat): seq<Piece>
    decreases t, t.Arity() + 1
  {
    if t.Scalar? then [Piece(path, val, lo, hi, t)] else PiecesBefore(t, val, path, lo, hi, t.Arity())
  }

  function PiecesBefore(t: Ty, val: Bits, path: Path, lo: nat, hi: nat, n: nat): seq<Piece>
    requires n <= t.Arity()
    decreases t, n
  {
    if n == 0 then []
    else
      var l, h := PartLo(t, n - 1, lo), PartHi(t, n - 1, lo, hi);
      PiecesBefore(t, val, path, lo, hi, n - 1) + Pieces(t.Elem(n - 1), Mask(val, l, h), path + [n - 1], l, h)
  }

  /** The pass goes through: no mask reaches behind the constant and all scalars are integers, which a build
      without assertions takes for granted; and, in a build with assertions, the masked constants fit a
      machine word. */
  predicate Lowers(asserts: bool, t: Ty, val: Bits, lo: nat, hi: nat)
    decreases t, t.Arity() + 1
  {
    if t.Scalar? then t.prim.IntTy? && (asserts ==> FitsWord(val))
    else LowersBefore(asserts, t, val, lo, hi, t.Arity())
  }

  predicate LowersBefore(asserts: bool, t: Ty, val: Bits, lo: nat, hi: nat, n: nat)
    requires n <= t.Arity()
    decreases t, n
  {
    n == 0 || (LowersBefore(asserts, t, val, lo, hi, n - 1) && LowersPart(asserts, t, val, lo, hi, n - 1))
  }

  predicate LowersPart(asserts: bool, t: Ty, val: Bits, lo: nat, hi: nat, i: nat)
    requires i < t.Arity()
    decreases t, i
  {
    var l, h := PartLo(t, i, lo), PartHi(t, i, lo, hi);
    h <= |val| && Lowers(asserts, t.Elem(i), Mask(val, l, h), l, h)
  }

  class InitLowering {
    const asserts: bool
    var stores: seq<Store>

    constructor (asserts: bool)
      ensures this.asserts == asserts && stores == []
    {
      this.asserts := asserts;
      stores := [];
    }

    method RecursiveInitLowering(ty: Ty, initValue: Bits, gepiIdxs: Path, loBit: nat, hiBit: nat) returns (ok: bool)
      modifies this
      ensures ok <==> Lowers(asserts, ty, initValue, loBit, hiBit)
      ensures ok ==> stores == old(stores) + Stores(Pieces(ty, initValue, gepiIdxs, loBit, hiBit))
      decreases ty, 1
    {
      match ty {
        case Struct(fields) =>
          ok := LowerFields(ty, initValue, gepiIdxs, loBit, hiBit);
        case Array(len, elem) =>
          ok := LowerElements(ty, initValue, gepiIdxs, loBit, hiBit);
        case Scalar(_) =>
          if !ty.prim.IntTy? || (asserts && !FitsWord(initValue)) {
            return false;
          }
          var castInitVal := FromWord(SignedWord(initValue), ty.prim.bits);
          stores := stores + [Store(gepiIdxs, castInitVal)];
          return true;
      }
    }

    method LowerChunkInit(ty: Ty, storedValue: Bits) returns (ok: bool)
      modifies this
      ensures ok <==> Lowers(asserts, ty, storedValue, 0, SizeInBits(ty))
      ensures ok ==> stores == old(stores) + Stores(Pieces(ty, storedValue, [0], 0, SizeInBits(ty)))
    {
      ok := RecursiveInitLowering(ty, storedValue, [0], 0, SizeInBits(ty));
    }

    method LowerFields(ty: Ty, initValue: Bits, gepiIdxs: Path, loBit: nat, hiBit: nat) returns (ok: bool)
      requires ty.Struct?
      modifies this
      ensures ok <==> LowersBefore(asserts, ty, initValue, loBit, hiBit, ty.Arity())
      ensures ok ==> stores == old(stores) + Stores(PiecesBefore(ty, initValue, gepiIdxs, loBit, hiBit, ty.Arity()))
      decreases ty, 0
    {
      for idx := 0 to |ty.fields|
        invariant LowersBefore(asserts, ty, initValue, loBit, hiBit, idx)
        invariant stores == old(stores) + Stores(PiecesBefore(ty, initValue, gepiIdxs, loBit, hiBit, idx))
      {
        var elLo := loBit + PartOff(ty, idx) * 8;
        var elHi := if idx + 1 == |ty.fields| then hiBit else loBit + PartOff(ty, idx + 1) * 8;
        StopsHere(asserts, ty, initValue, loBit, hiBit, idx);
        if elHi > |initValue| {
          return false;
        }
        NextStores(old(stores), ty, initValue, gepiIdxs, loBit, hiBit, idx);
        ok := RecursiveInitLowering(ty.fields[idx], Mask(initValue, elLo, elHi), gepiIdxs + [idx], elLo, elHi);
        if !ok {
          return false;
        }
      }
      return true;
    }

    method LowerElements(ty: Ty, initValue: Bits, gepiIdxs: Path, loBit: nat, hiBit: nat) returns (ok: bool)
      requires ty.Array?
      modifies this
      ensures ok <==> LowersBefore(asserts, ty, initValue, loBit, hiBit, ty.Arity())
      ensures ok ==> stores == old(stores) + Stores(PiecesBefore(ty, initValue, gepiIdxs, loBit, hiBit, ty.Arity()))
      decreases ty, 0
    {
      var elBitwidth := SizeInBits(ty.elem);
      var elOffset := loBit;
      for idx := 0 to ty.len
        invariant elOffset == loBit + idx * elBitwidth
        invariant LowersBefore(asserts, ty, initValue, loBit, hiBit, idx)
        invariant stores == old(stores) + Stores(PiecesBefore(ty, initValue, gepiIdxs, loBit, hiBit, idx))
      {
        var elLo := elOffset;
        elOffset := elOffset + elBitwidth;
        var elHi := elOffset;
        NextElement(ty, idx, loBit, hiBit);
        StopsHere(asserts, ty, initValue, loBit, hiBit, idx);
        if elHi > |initValue| {
          return false;
        }
        NextStores(old(stores), ty, initValue, gepiIdxs, loBit, hiBit, idx);
        ok := RecursiveInitLowering(ty.elem, Mask(initValue, elLo, elHi), gepiIdxs + [idx], elLo, elHi);
        if !ok {
          return false;
        }
      }
      return true;
    }
  }

  lemma NextStores(stores: seq<Store>, t: Ty, val: Bits, path: Path, lo: nat, hi: nat, n: nat)
    requires n < t.Arity()
    ensures var l, h := PartLo(t, n, lo), PartHi(t, n, lo, hi);
            stores + Stores(PiecesBefore(t, val, path, lo, hi, n + 1)) ==
            (stores + Stores(PiecesBefore(t, val, path, lo, hi, n))) +
            Stores(Pieces(t.Elem(n), Mask(val, l, h), path + [n], l, h))
  {
    var l, h := PartLo(t, n, lo), PartHi(t, n, lo, hi);
    StoresConcat(PiecesBefore(t, val, path, lo, hi, n), Pieces(t.Elem(n), Mask(val, l, h), path + [n], l, h));
  }

  /** A part that stops the pass stops the whole. */
  lemma StopsHere(asserts: bool, t: Ty, val: Bits, lo: nat, hi: nat, i: nat)
    requires i < t.Arity()
    ensures !LowersPart(asserts, t, val, lo, hi, i) ==> !LowersBefore(asserts, t, val, lo, hi, t.Arity())
  {
    if LowersBefore(asserts, t, val, lo, hi, t.Arity()) { LowersEach(asserts, t, val, lo, hi, i, t.Arity()); }
  }

  lemma {:induction false} LowersEach(asserts: bool, t: Ty, val: Bits, lo: nat, hi: nat, i: nat, n: nat)
    requires i < n <= t.Arity() && LowersBefore(asserts, t, val, lo, hi, n)
    ensures LowersPart(asserts, t, val, lo, hi, i)
    decreases n
  {
    if i < n - 1 { LowersEach(asserts, t, val, lo, hi, i, n - 1); }
  }

  lemma NextElement(t: Ty, idx: nat, lo: nat, hi: nat)
    requires t.Array? && idx < t.len
    ensures PartLo(t, idx, lo) == lo + idx * SizeInBits(t.elem)
    ensures PartHi(t, idx, lo, hi) == PartLo(t, idx, lo) + SizeInBits(t.elem) == lo + (idx + 1) * SizeInBits(t.elem)
  {
    assert (idx + 1) * SizeInBits(t.elem) == idx * SizeInBits(t.elem) + SizeInBits(t.elem);
  }

  // ----- the ranges -----

  lemma BitsFitBytes(t: Ty)
    ensures SizeInBits(t) <= 8 * Size(t)
  {
    if t.Scalar? && t.prim.IntTy? { IntBytesHold(t.prim.bits, 1); }
  }

  /** The range has room for the type. */
  predicate Fits(t: Ty, lo: nat, hi: nat) {
    lo + SizeInBits(t) <= hi
  }

  /** The parts of an aggregate get ranges that have room for them, follow each other and stay
      inside the range of the aggregate.  In a struct they start at the fields' offsets and the last one
      ends where the struct does; in an array they are as wide as an element. */
  lemma PartRanges(t: Ty, lo: nat, hi: nat, i: nat)
    requires i < t.Arity() && Fits(t, lo, hi)
    ensures lo <= PartLo(t, i, lo) && Fits(t.Elem(i), PartLo(t, i, lo), PartHi(t, i, lo, hi))
    ensures PartHi(t, i, lo, hi) <= hi
    ensures i + 1 < t.Arity() ==> PartHi(t, i, lo, hi) == PartLo(t, i + 1, lo)
    ensures t.Struct? ==> PartLo(t, i, lo) == lo + 8 * PartOff(t, i)
    ensures t.Struct? && i + 1 == t.Arity() ==> PartHi(t, i, lo, hi) == hi
    ensures t.Array? ==> PartLo(t, 0, lo) == lo && PartHi(t, i, lo, hi) == PartLo(t, i, lo) + SizeInBits(t.elem)
  {
    if t.Struct? { FieldRanges(t, lo, hi, i); } else { ElementRanges(t, lo, hi, i); }
  }

  lemma FieldRanges(t: Ty, lo: nat, hi: nat, i: nat)
    requires t.Struct? && i < t.Arity() && lo + SizeInBits(t) <= hi
    ensures PartLo(t, i, lo) + SizeInBits(t.Elem(i)) <= PartHi(t, i, lo, hi) <= hi
  {
    BitsFitBytes(t.Elem(i));
    PartsDisjoint(t, i, t.Arity());
    if i + 1 < t.Arity() {
      PartsDisjoint(t, i, i + 1);
      PartsDisjoint(t, i + 1, t.Arity());
    }
  }

  lemma ElementRanges(t: Ty, lo: nat, hi: nat, i: nat)
    requires t.Array? && i < t.Arity() && lo + SizeInBits(t) <= hi
    ensures PartLo(t, i, lo) + SizeInBits(t.Elem(i)) == PartHi(t, i, lo, hi) <= hi
  {
    BitsFitBytes(t.elem);
    ElementRange(t.len, i, SizeInBits(t.elem), Size(t.elem));
  }

  lemma ElementRange(len: nat, i: nat, w: nat, s: nat)
    requires i < len && w <= 8 * s
    ensures (i + 1) * w == i * w + w <= len * w <= 8 * (len * s)
  {
    MulMonotone(i + 1, len, w);
    MulScale(len, w, s);
    assert (i + 1) * w == i * w + w;
  }

  lemma MulScale(n: nat, w: nat, s: nat)
    requires w <= 8 * s
    ensures n * w <= 8 * (n * s)
  {
    assert n * (8 * s) == 8 * (n * s);
    assert n * (8 * s) - n * w == n * (8 * s - w);
  }

  /** A piece stands for a range inside [lo, hi) with room for its scalar, and its constant is the
      whole constant masked by that range alone. */
  predicate PieceOk(piece: Piece, val: Bits, lo: nat, hi: nat) {
    lo <= piece.lo && piece.hi <= hi && piece.ty.Scalar? &&
    Fits(piece.ty, piece.lo, piece.hi) && piece.bits == Mask(val, piece.lo, piece.hi)
  }

  ghost predicate AllOk(pieces: seq<Piece>, val: Bits, lo: nat, hi: nat) {
    (forall i: nat :: i < |pieces| ==> PieceOk(pieces[i], val, lo, hi)) &&
    forall i: nat, j: nat :: i < j < |pieces| ==> pieces[i].hi <= pieces[j].lo
  }

  lemma MaskTwice(val: Bits, lo: nat, hi: nat, l: nat, h: nat)
    requires lo <= l && h <= hi
    ensures Mask(Mask(val, lo, hi), l, h) == Mask(val, l, h)
  {
  }

  /** The pieces of a part, seen from the aggregate. */
  lemma PiecesInside(pieces: seq<Piece>, val: Bits, l: nat, h: nat, lo: nat, hi: nat)
    requires AllOk(pieces, Mask(val, l, h), l, h) && lo <= l && h <= hi
    ensures AllOk(pieces, val, lo, hi)
  {
    forall i: nat | i < |pieces| ensures PieceOk(pieces[i], val, lo, hi) {
      assert PieceOk(pieces[i], Mask(val, l, h), l, h);
      MaskTwice(val, l, h, pieces[i].lo, pieces[i].hi);
    }
  }

  lemma PiecesJoin(a: seq<Piece>, b: seq<Piece>, val: Bits, lo: nat, mid: nat, hi: nat)
    requires AllOk(a, val, lo, mid) && AllOk(b, val, mid, hi) && lo <= mid <= hi
    ensures AllOk(a + b, val, lo, hi)
  {
    forall i: nat | i < |a + b| ensures PieceOk((a + b)[i], val, lo, hi) {
      if i < |a| { assert PieceOk(a[i], val, lo, mid); } else { assert PieceOk(b[i - |a|], val, mid, hi); }
    }
    forall i: nat, j: nat | i < j < |a + b| ensures (a + b)[i].hi <= (a + b)[j].lo {
      if i < |a| <= j {
        assert PieceOk(a[i], val, lo, mid) && PieceOk(b[j - |a|], val, mid, hi);
      }
    }
  }

  /** The ranges of the scalars are ordered, disjoint and inside the range of the whole, and the
      nested masks come to one mask each. */
  lemma {:induction false} PiecesAreOk(t: Ty, val: Bits, path: Path, lo: nat, hi: nat)
    requires Fits(t, lo, hi) && (t.Scalar? ==> val == Mask(val, lo, hi))
    ensures AllOk(Pieces(t, val, path, lo, hi), val, lo, hi)
    decreases t, t.Arity() + 1
  {
    if !t.Scalar? && t.Arity() > 0 {
      PiecesBeforeAreOk(t, val, path, lo, hi, t.Arity());
      PartRanges(t, lo, hi, t.Arity() - 1);
      PiecesWiden(PiecesBefore(t, val, path, lo, hi, t.Arity()), val, lo, PartHi(t, t.Arity() - 1, lo, hi), hi);
    }
  }

  lemma PiecesWiden(pieces: seq<Piece>, val: Bits, lo: nat, h: nat, hi: nat)
    requires AllOk(pieces, val, lo, h) && h <= hi
    ensures AllOk(pieces, val, lo, hi)
  {
    forall i: nat | i < |pieces| ensures PieceOk(pieces[i], val, lo, hi) {
      assert PieceOk(pieces[i], val, lo, h);
    }
  }

  lemma {:induction false} PiecesBeforeAreOk(t: Ty, val: Bits, path: Path, lo: nat, hi: nat, n: nat)
    requires 0 < n <= t.Arity() && Fits(t, lo, hi)
    ensures AllOk(PiecesBefore(t, val, path, lo, hi, n), val, lo, PartHi(t, n - 1, lo, hi))
    decreases t, n
  {
    var l, h := PartLo(t, n - 1, lo), PartHi(t, n - 1, lo, hi);
    PartRanges(t, lo, hi, n - 1);
    MaskTwice(val, l, h, l, h);
    PiecesAreOk(t.Elem(n - 1), Mask(val, l, h), path + [n - 1], l, h);
    var here := Pieces(t.Elem(n - 1), Mask(val, l, h), path + [n - 1], l, h);
    PiecesInside(here, val, l, h, l, h);
    if n == 1 {
      assert PiecesBefore(t, val, path, lo, hi, 0) == [];
      PiecesJoin([], here, val, lo, l, h);
    } else {
      PiecesBeforeAreOk(t, val, path, lo, hi, n - 1);
      PartRanges(t, lo, hi, n - 2);
      PiecesJoin(PiecesBefore(t, val, path, lo, hi, n - 1), here, val, lo, l, h);
    }
  }

  // ----- the pieces together -----

  function Or(a: Bits, b: Bits): (r: Bits)
    requires |a| == |b|
    ensures |r| == |a|
    ensures forall k :: 0 <= k < |r| ==> r[k] == (a[k] || b[k])
  {
    seq(|a|, k requires 0 <= k < |a| => a[k] || b[k])
  }

  /** The constants of all pieces, or-ed. */
  function Union(pieces: seq<Piece>, width: nat): (r: Bits)
    requires forall i: nat :: i < |pieces| ==> |pieces[i].bits| == width
    ensures |r| == width
  {
    if pieces == [] then seq(width, i => false)
    else Or(Union(pieces[..|pieces| - 1], width), pieces[|pieces| - 1].bits)
  }

  ghost predicate Covered(pieces: seq<Piece>, b: int) {
    exists i: nat :: i < |pieces| && pieces[i].lo <= b < pieces[i].hi
  }

  /** Or-ing the constants of the pieces gives back the constant on the bits some piece stands for,
      and nothing elsewhere. */
  lemma {:induction false} UnionIsRestriction(pieces: seq<Piece>, val: Bits, lo: nat, hi: nat, b: nat)
    requires AllOk(pieces, val, lo, hi) && b < |val|
    ensures forall i: nat :: i < |pieces| ==> |pieces[i].bits| == |val|
    ensures Union(pieces, |val|)[b] == (val[b] && Covered(pieces, b))
    decreases |pieces|
  {
    forall i: nat | i < |pieces| ensures |pieces[i].bits| == |val| {
      assert PieceOk(pieces[i], val, lo, hi);
    }
    if pieces != [] {
      var init, last := pieces[..|pieces| - 1], pieces[|pieces| - 1];
      assert AllOk(init, val, lo, hi) by {
        assert forall i: nat :: i < |init| ==> init[i] == pieces[i] && PieceOk(pieces[i], val, lo, hi);
      }
      UnionIsRestriction(init, val, lo, hi, b);
      assert PieceOk(pieces[|pieces| - 1], val, lo, hi);
      CoveredSnoc(pieces, b);
    }
  }

  lemma CoveredSnoc(pieces: seq<Piece>, b: int)
    requires pieces != []
    ensures var last := pieces[|pieces| - 1];
            Covered(pieces, b) <==> Covered(pieces[..|pieces| - 1], b) || last.lo <= b < last.hi
  {
    var init := pieces[..|pieces| - 1];
    if i: nat :| i < |init| && init[i].lo <= b < init[i].hi {
      assert pieces[i].lo <= b < pieces[i].hi;
    }
    if i: nat :| i < |pieces| && pieces[i].lo <= b < pieces[i].hi {
      if i < |init| { assert init[i].lo <= b < init[i].hi; }
    }
  }

  /** Splitting a constant for an aggregate: the pieces are ordered, disjoint and masked
      by their own ranges, and together they are the constant restricted to their ranges. */
  lemma ChunkInitIsSplit(ty: Ty, val: Bits, b: nat)
    requires !ty.Scalar? && b < |val|
    ensures var pieces := Pieces(ty, val, [0], 0, SizeInBits(ty));
            AllOk(pieces, val, 0, SizeInBits(ty)) &&
            (forall i: nat :: i < |pieces| ==> |pieces[i].bits| == |val|) &&
            Union(pieces, |val|)[b] == (val[b] && Covered(pieces, b))
  {
    PiecesAreOk(ty, val, [0], 0, SizeInBits(ty));
    UnionIsRestriction(Pieces(ty, val, [0], 0, SizeInBits(ty)), val, 0, SizeInBits(ty), b);
  }

  // ----- which scalar a piece is for -----

  lemma {:induction false} PiecesCount(t: Ty, val: Bits, path: Path, lo: nat, hi: nat)
    ensures |Pieces(t, val, path, lo, hi)| == Count(t)
    decreases t, t.Arity() + 1
  {
    if !t.Scalar? {
      PiecesBeforeCount(t, val, path, lo, hi, t.Arity());
      CountOfParts(t);
    }
  }

  lemma {:induction false} PiecesBeforeCount(t: Ty, val: Bits, path: Path, lo: nat, hi: nat, n: nat)
    requires n <= t.Arity()
    ensures |PiecesBefore(t, val, path, lo, hi, n)| == CountBefore(t, n)
    decreases t, n
  {
    if n > 0 {
      var l, h := PartLo(t, n - 1, lo), PartHi(t, n - 1, lo, hi);
      PiecesBeforeCount(t, val, path, lo, hi, n - 1);
      PiecesCount(t.Elem(n - 1), Mask(val, l, h), path + [n - 1], l, h);
    }
  }

  /** The first bit of the range the split gives to the part at a path. */
  function BitOff(t: Ty, p: Path): nat
    requires ValidPath(t, p)
    decreases p
  {
    if p == [] then 0 else PartLo(t, p[0], 0) + BitOff(t.Elem(p[0]), p[1..])
  }

  /** The piece is for the scalar at `p`, and its range starts there. */
  predicate PieceFor(piece: Piece, t: Ty, path: Path, lo: nat, p: Path) {
    ScalarPath(t, p) && piece.path == path + p && piece.ty == SubTy(t, p) && piece.lo == lo + BitOff(t, p)
  }

  /** The pieces are for the scalars of the type, one each, in depth-first order. */
  lemma {:induction false} PieceOfScalar(t: Ty, val: Bits, path: Path, lo: nat, hi: nat, p: Path)
    requires ScalarPath(t, p)
    ensures Rank(t, p) < |Pieces(t, val, path, lo, hi)|
    ensures PieceFor(Pieces(t, val, path, lo, hi)[Rank(t, p)], t, path, lo, p)
    decreases p
  {
    PiecesCount(t, val, path, lo, hi);
    RankInRange(t, p);
    if p == [] {
      assert path + [] == path;
    } else {
      var i := p[0];
      var l, h := PartLo(t, i, lo), PartHi(t, i, lo, hi);
      PieceOfScalar(t.Elem(i), Mask(val, l, h), path + [i], l, h, p[1..]);
      RankInRange(t.Elem(i), p[1..]);
      PieceOfPart(t, val, path, lo, hi, i, Rank(t.Elem(i), p[1..]));
      assert (path + [i]) + p[1..] == path + p;
    }
  }

  lemma {:induction false} PiecesGrow(t: Ty, val: Bits, path: Path, lo: nat, hi: nat, i: nat, n: nat)
    requires i < n <= t.Arity()
    ensures var l, h := PartLo(t, i, lo), PartHi(t, i, lo, hi);
            PiecesBefore(t, val, path, lo, hi, i) + Pieces(t.Elem(i), Mask(val, l, h), path + [i], l, h) <=
            PiecesBefore(t, val, path, lo, hi, n)
    decreases n
  {
    if i < n - 1 { PiecesGrow(t, val, path, lo, hi, i, n - 1); }
  }

  lemma PieceOfPart(t: Ty, val: Bits, path: Path, lo: nat, hi: nat, i: nat, k: nat)
    requires i < t.Arity() && k < Count(t.Elem(i))
    ensures var l, h := PartLo(t, i, lo), PartHi(t, i, lo, hi);
            CountBefore(t, i) + k < |Pieces(t, val, path, lo, hi)| &&
            k < |Pieces(t.Elem(i), Mask(val, l, h), path + [i], l, h)| &&
            Pieces(t, val, path, lo, hi)[CountBefore(t, i) + k] ==
            Pieces(t.Elem(i), Mask(val, l, h), path + [i], l, h)[k]
  {
    var l, h := PartLo(t, i, lo), PartHi(t, i, lo, hi);
    PiecesCount(t.Elem(i), Mask(val, l, h), path + [i], l, h);
    PiecesBeforeCount(t, val, path, lo, hi, i);
    PiecesGrow(t, val, path, lo, hi, i, t.Arity());
    PrefixAt(PiecesBefore(t, val, path, lo, hi, i), Pieces(t.Elem(i), Mask(val, l, h), path + [i], l, h),
             PiecesBefore(t, val, path, lo, hi, t.Arity()), k);
  }

  lemma PrefixAt(a: seq<Piece>, b: seq<Piece>, all: seq<Piece>, k: nat)
    requires a + b <= all && k < |b|
    ensures |a| + k < |all| && all[|a| + k] == b[k]
  {
    assert (a + b)[|a| + k] == b[k];
  }

  // ----- where the split puts a scalar, and where memory has it -----

  /** No index behind the first one goes into an array of scalars that are padded in memory. */
  predicate Unpadded(t: Ty, p: Path)
    requires ValidPath(t, p)
    decreases p
  {
    p == [] ||
    ((t.Array? && p[0] > 0 ==> SizeInBits(t.elem) == 8 * Size(t.elem)) && Unpadded(t.Elem(p[0]), p[1..]))
  }

  lemma PartLoIff(t: Ty, i: nat)
    requires i < t.Arity()
    ensures PartLo(t, i, 0) <= 8 * PartOff(t, i)
    ensures PartLo(t, i, 0) == 8 * PartOff(t, i) <==>
            (t.Array? && i > 0 ==> SizeInBits(t.elem) == 8 * Size(t.elem))
  {
    if t.Array? {
      BitsFitBytes(t.elem);
      DeficitIff(i, SizeInBits(t.elem), Size(t.elem));
    }
  }

  lemma DeficitIff(i: nat, w: nat, s: nat)
    requires w <= 8 * s
    ensures i * w <= 8 * (i * s)
    ensures i * w == 8 * (i * s) <==> i == 0 || w == 8 * s
  {
    var d := 8 * s - w;
    assert 8 * (i * s) == i * (8 * s);
    assert i * (8 * s) == i * w + i * d;
    if i > 0 && d > 0 { MulMonotone(1, i, d); }
  }

  /** The range of a scalar starts at its place in memory exactly when no array on its path strides
      over padded scalars; otherwise it starts too early. */
  lemma {:induction false} BitOffIff(t: Ty, p: Path)
    requires ScalarPath(t, p)
    ensures BitOff(t, p) <= 8 * PathOff(t, p)
    ensures BitOff(t, p) == 8 * PathOff(t, p) <==> Unpadded(t, p)
    decreases p
  {
    if p != [] {
      PartLoIff(t, p[0]);
      BitOffIff(t.Elem(p[0]), p[1..]);
    }
  }

  lemma {:induction false} AlignInside(t: Ty, p: Path)
    requires ScalarPath(t, p)
    ensures Align(SubTy(t, p)) <= Align(t)
    decreases p
  {
    if p != [] {
      AlignInside(t.Elem(p[0]), p[1..]);
      if t.Struct? { AlignOfPart(t, p[0], t.Arity()); }
    }
  }

  lemma {:induction false} AlignOfPart(t: Ty, i: nat, n: nat)
    requires i < n <= t.Arity()
    ensures Align(t.Elem(i)) <= AlignBefore(t, n)
    decreases n
  {
    if i < n - 1 { AlignOfPart(t, i, n - 1); }
  }

  lemma PositiveMultiple(x: nat, a: nat)
    requires a >= 1 && x % a == 0 && x > 0
    ensures x >= a
  {
  }

  /** A scalar that is not at the start of the memory gets a range that starts at least its own width
      from bit 0. */
  lemma {:induction false} FarEnough(t: Ty, p: Path)
    requires ScalarPath(t, p) && PathOff(t, p) > 0
    ensures BitOff(t, p) >= SizeInBits(SubTy(t, p))
    decreases p
  {
    var i, e := p[0], t.Elem(p[0]);
    if PathOff(e, p[1..]) > 0 {
      FarEnough(e, p[1..]);
    } else {
      PathInside(e, p[1..]);
      BitsFitBytes(SubTy(t, p));
      if t.Struct? {
        AlignInside(e, p[1..]);
        PositiveMultiple(PartOff(t, i), Align(e));
      } else {
        MulMonotone(1, i, SizeInBits(e));
      }
    }
  }

  // ----- when the lowering goes through -----

  /** No assertion stops the pass at this scalar. */
  predicate PieceLowers(asserts: bool, piece: Piece) {
    piece.ty.Scalar? && piece.ty.prim.IntTy? && (asserts ==> FitsWord(piece.bits))
  }

  ghost predicate AllLower(asserts: bool, pieces: seq<Piece>) {
    forall k: nat :: k < |pieces| ==> PieceLowers(asserts, pieces[k])
  }

  /** The masks for the parts of an aggregate reach no further than the constant. */
  predicate MasksFit(t: Ty, val: Bits, lo: nat, hi: nat, n: nat)
    requires n <= t.Arity()
  {
    n == 0 || PartHi(t, n - 1, lo, hi) <= |val|
  }

  /** The pass goes through exactly when the last mask fits the constant and no scalar stops it: the
      masks of inner parts then fit by themselves. */
  lemma {:induction false} LowersIff(asserts: bool, t: Ty, val: Bits, path: Path, lo: nat, hi: nat)
    requires Fits(t, lo, hi)
    ensures Lowers(asserts, t, val, lo, hi) <==>
            MasksFit(t, val, lo, hi, t.Arity()) && AllLower(asserts, Pieces(t, val, path, lo, hi))
    decreases t, t.Arity() + 1
  {
    if t.Scalar? {
      assert Pieces(t, val, path, lo, hi)[0] == Piece(path, val, lo, hi, t);
    } else {
      LowersBeforeIff(asserts, t, val, path, lo, hi, t.Arity());
    }
  }

  lemma {:induction false} LowersBeforeIff(asserts: bool, t: Ty, val: Bits, path: Path, lo: nat, hi: nat, n: nat)
    requires Fits(t, lo, hi) && n <= t.Arity()
    ensures LowersBefore(asserts, t, val, lo, hi, n) <==>
            MasksFit(t, val, lo, hi, n) && AllLower(asserts, PiecesBefore(t, val, path, lo, hi, n))
    decreases t, n
  {
    if n > 0 {
      var l, h := PartLo(t, n - 1, lo), PartHi(t, n - 1, lo, hi);
      LowersBeforeIff(asserts, t, val, path, lo, hi, n - 1);
      LastMask(t, val, lo, hi, n);
      LowersPartIff(asserts, t, val, path, lo, hi, n - 1);
      AllLowerConcat(asserts, PiecesBefore(t, val, path, lo, hi, n - 1),
                     Pieces(t.Elem(n - 1), Mask(val, l, h), path + [n - 1], l, h));
    }
  }

  lemma LastMask(t: Ty, val: Bits, lo: nat, hi: nat, n: nat)
    requires Fits(t, lo, hi) && 0 < n <= t.Arity()
    ensures MasksFit(t, val, lo, hi, n) ==> MasksFit(t, val, lo, hi, n - 1)
  {
    PartRanges(t, lo, hi, n - 1);
    if n > 1 { PartRanges(t, lo, hi, n - 2); }
  }

  lemma {:induction false} LowersPartIff(asserts: bool, t: Ty, val: Bits, path: Path, lo: nat, hi: nat, i: nat)
    requires Fits(t, lo, hi) && i < t.Arity()
    ensures var l, h := PartLo(t, i, lo), PartHi(t, i, lo, hi);
            LowersPart(asserts, t, val, lo, hi, i) <==>
            h <= |val| && AllLower(asserts, Pieces(t.Elem(i), Mask(val, l, h), path + [i], l, h))
    decreases t, i
  {
    var e, l, h := t.Elem(i), PartLo(t, i, lo), PartHi(t, i, lo, hi);
    PartRanges(t, lo, hi, i);
    if h <= |val| {
      LowersIff(asserts, e, Mask(val, l, h), path + [i], l, h);
      if e.Arity() > 0 { PartRanges(e, l, h, e.Arity() - 1); }
    }
  }

  lemma AllLowerConcat(asserts: bool, a: seq<Piece>, b: seq<Piece>)
    ensures AllLower(asserts, a + b) <==> AllLower(asserts, a) && AllLower(asserts, b)
  {
    if AllLower(asserts, a + b) {
      forall k: nat | k < |a| ensures PieceLowers(asserts, a[k]) { assert PieceLowers(asserts, (a + b)[k]); }
      forall k: nat | k < |b| ensures PieceLowers(asserts, b[k]) { assert PieceLowers(asserts, (a + b)[|a| + k]); }
    }
  }

  predicate AllClear(val: Bits, lo: nat, hi: nat) {
    forall b: nat :: lo <= b < hi && b < |val| ==> !val[b]
  }

  predicate AllSet(val: Bits, lo: nat) {
    forall b: nat :: lo <= b < |val| ==> val[b]
  }

  /** A masked constant fits a machine word exactly when the constant has no more bits than a word, or its
      bits in the range from 63 up are all clear, or the range goes on to the end of the constant and they
      are all set. */
  lemma MaskFitsIff(val: Bits, lo: nat, hi: nat)
    ensures FitsWord(Mask(val, lo, hi)) <==>
            |val| <= 64 || AllClear(val, Max(lo, 63), hi) || (lo <= 63 && |val| <= hi && AllSet(val, 63))
  {
    var m := Mask(val, lo, hi);
    if |val| > 64 && FitsWord(m) {
      if m[63] {
        assert m[|val| - 1] == m[63];
        forall b: nat | 63 <= b < |val| ensures val[b] { assert m[b] == m[63]; }
      } else {
        forall b: nat | Max(lo, 63) <= b < hi && b < |val| ensures !val[b] { assert m[b] == m[63]; }
      }
    }
  }

  lemma PieceAtHolds(t: Ty, val: Bits, p: Path)
    requires ScalarPath(t, p)
    ensures var pieces := Pieces(t, val, [0], 0, SizeInBits(t));
            Rank(t, p) < |pieces| && PieceFor(pieces[Rank(t, p)], t, [0], 0, p) &&
            if t.Scalar? then pieces[Rank(t, p)].bits == val else PieceOk(pieces[Rank(t, p)], val, 0, SizeInBits(t))
  {
    PieceOfScalar(t, val, [0], 0, SizeInBits(t), p);
    if !t.Scalar? { PiecesAreOk(t, val, [0], 0, SizeInBits(t)); }
  }

  /** The piece for the scalar at `p`. */
  function PieceAt(t: Ty, val: Bits, p: Path): (piece: Piece)
    requires ScalarPath(t, p)
    ensures PieceFor(piece, t, [0], 0, p)
    ensures !t.Scalar? ==> PieceOk(piece, val, 0, SizeInBits(t))
    ensures t.Scalar? ==> piece.bits == val
  {
    PieceAtHolds(t, val, p);
    Pieces(t, val, [0], 0, SizeInBits(t))[Rank(t, p)]
  }

  /** Where the last part of an aggregate ends. */
  function LastBit(t: Ty): nat {
    if t.Struct? && t.Arity() > 0 then 8 * Size(t) else if t.Array? then t.len * SizeInBits(t.elem) else 0
  }

  lemma LastMaskFits(t: Ty, val: Bits)
    requires !t.Scalar?
    ensures MasksFit(t, val, 0, SizeInBits(t), t.Arity()) <==> LastBit(t) <= |val|
  {
    if t.Arity() > 0 { PartRanges(t, 0, SizeInBits(t), t.Arity() - 1); }
  }

  /** A chunk initialization goes through exactly when the last part ends within the constant, every scalar
      is an integer and, in a build with assertions, the masked constant of each fits a machine word. */
  lemma GoesThroughIff(asserts: bool, t: Ty, val: Bits)
    requires !t.Scalar?
    ensures Lowers(asserts, t, val, 0, SizeInBits(t)) <==>
            LastBit(t) <= |val| &&
            forall p :: ScalarPath(t, p) ==>
              SubTy(t, p).prim.IntTy? && (asserts ==> FitsWord(PieceAt(t, val, p).bits))
  {
    LastMaskFits(t, val);
    LowersIff(asserts, t, val, [0], 0, SizeInBits(t));
    PiecesCount(t, val, [0], 0, SizeInBits(t));
    var pieces := Pieces(t, val, [0], 0, SizeInBits(t));
    if AllLower(asserts, pieces) {
      forall p | ScalarPath(t, p) ensures PieceLowers(asserts, PieceAt(t, val, p)) {
        PieceOfScalar(t, val, [0], 0, SizeInBits(t), p);
      }
    }
    if forall p :: ScalarPath(t, p) ==> PieceLowers(asserts, PieceAt(t, val, p)) {
      forall k: nat | k < |pieces| ensures PieceLowers(asserts, pieces[k]) {
        assert PieceAt(t, val, Unrank(t, k)) == pieces[k];
      }
    }
  }

  // ----- the stored value -----

  /** The bits that the whole constant puts into the scalar at `p` in little-endian memory; behind the
      constant there are none. */
  function MemoryBits(t: Ty, p: Path, val: Bits): (r: Bits)
    requires ScalarPath(t, p)
    ensures |r| == SizeInBits(SubTy(t, p))
    ensures forall k :: 0 <= k < |r| ==> r[k] == (8 * PathOff(t, p) + k < |val| && val[8 * PathOff(t, p) + k])
  {
    seq(SizeInBits(SubTy(t, p)), k requires k >= 0 => 8 * PathOff(t, p) + k < |val| && val[8 * PathOff(t, p) + k])
  }

  predicate IsZero(bits: Bits) {
    forall i: nat :: i < |bits| ==> !bits[i]
  }

  predicate ZeroFrom(bits: Bits, n: nat) {
    forall i: nat :: n <= i < |bits| ==> !bits[i]
  }

  /** The store to a scalar behind the first one writes zero, and the store to the first one keeps the low
      64 bits only. */
  lemma StoredBits(t: Ty, val: Bits, p: Path)
    requires ScalarPath(t, p) && !t.Scalar?
    ensures PathOff(t, p) > 0 ==> IsZero(Stored(PieceAt(t, val, p)))
    ensures PathOff(t, p) == 0 && SizeInBits(SubTy(t, p)) <= |val| ==>
              forall k: nat :: k < SizeInBits(SubTy(t, p)) ==>
                Stored(PieceAt(t, val, p))[k] == (k < 64 && MemoryBits(t, p, val)[k])
  {
    BitOffIff(t, p);
    if PathOff(t, p) > 0 { FarEnough(t, p); }
  }

  /** A scalar's range ends within the constant when the lowering goes through. */
  lemma ConstantReaches(asserts: bool, t: Ty, val: Bits, p: Path)
    requires ScalarPath(t, p) && !t.Scalar? && Lowers(asserts, t, val, 0, SizeInBits(t))
    ensures SizeInBits(SubTy(t, p)) <= PieceAt(t, val, p).hi <= |val|
  {
    LowersIff(asserts, t, val, [0], 0, SizeInBits(t));
    PieceOfScalar(t, val, [0], 0, SizeInBits(t), p);
    PiecesBeforeAreOk(t, val, [0], 0, SizeInBits(t), t.Arity());
  }

  /** The value stored into a scalar is what the whole constant puts there exactly when its bits there are
      all zero, or the scalar is at the start of the memory and its bits from 64 up are all zero. */
  lemma StoredIff(asserts: bool, t: Ty, val: Bits, p: Path)
    requires ScalarPath(t, p) && !t.Scalar? && Lowers(asserts, t, val, 0, SizeInBits(t))
    ensures Stored(PieceAt(t, val, p)) == MemoryBits(t, p, val) <==>
            IsZero(MemoryBits(t, p, val)) || (PathOff(t, p) == 0 && ZeroFrom(MemoryBits(t, p, val), 64))
  {
    var stored, own := Stored(PieceAt(t, val, p)), MemoryBits(t, p, val);
    ConstantReaches(asserts, t, val, p);
    StoredBits(t, val, p);
    if PathOff(t, p) == 0 && ZeroFrom(own, 64) {
      assert forall k: nat :: k < |own| ==> stored[k] == own[k];
    }
    if IsZero(own) {
      assert forall k: nat :: k < |own| ==> stored[k] == own[k];
    }
  }

  /** In a pair of bytes the second one is stored as zero whatever the constant gives it. */
  lemma SecondByteIsLost(val: Bits)
    requires |val| == 16 && val[8]
    ensures var byte := Scalar(IntTy(8));
            var t := Struct([byte, byte]);
            ScalarPath(t, [1]) && SizeInBits(t) == 16 && PathOff(t, [1]) == 1 &&
            IsZero(Stored(PieceAt(t, val, [1]))) && !IsZero(MemoryBits(t, [1], val))
  {
    var byte := Scalar(IntTy(8));
    var t := Struct([byte, byte]);
    assert t.Elem(0) == byte && t.Elem(1) == byte && [1][1..] == [];
    assert IntBytes(8, 1) == 1 && Size(byte) == 1;
    assert AlignBefore(t, 1) == 1 && AlignBefore(t, 2) == 1 && EndOf(t, 1) == 1 && EndOf(t, 2) == 2;
    assert PartOff(t, 1) == 1;
    StoredBits(t, val, [1]);
    assert MemoryBits(t, [1], val)[0] == val[8];
  }

  /** Of an integer of 128 bits at the start of the memory only the low half is stored; a build with
      assertions goes through only when the bits from 63 up are all clear or all set. */
  lemma WideScalarIsCut(val: Bits)
    requires |val| == 128 && val[100]
    ensures var t := Struct([Scalar(IntTy(128))]);
            ScalarPath(t, [0]) && SizeInBits(t) == 128 && PathOff(t, [0]) == 0 &&
            Lowers(false, t, val, 0, 128) && (Lowers(true, t, val, 0, 128) <==> AllSet(val, 63)) &&
            !Stored(PieceAt(t, val, [0]))[100] && MemoryBits(t, [0], val)[100]
  {
    var e := Scalar(IntTy(128));
    var t := Struct([e]);
    OneWideInteger();
    assert t.Elem(0) == e && [0][1..] == [];
    assert Mask(val, 0, 128) == val;
    MaskFitsIff(val, 0, 128);
    assert LowersBefore(false, t, val, 0, 128, 0) && LowersBefore(true, t, val, 0, 128, 0);
    assert Lowers(true, e, val, 0, 128) <==> AllSet(val, 63);
    StoredBits(t, val, [0]);
  }

  lemma OneWideInteger()
    ensures var t := Struct([Scalar(IntTy(128))]);
            Size(t) == 16 && PartOff(t, 0) == 0
  {
    var e := Scalar(IntTy(128));
    var t := Struct([e]);
    assert IntBytes(128, 16) == 16;
    assert IntBytes(128, 8) == IntBytes(128, 16);
    assert IntBytes(128, 4) == IntBytes(128, 8);
    assert IntBytes(128, 2) == IntBytes(128, 4);
    assert IntBytes(128, 1) == IntBytes(128, 2);
    assert t.Elem(0) == e && AlignBefore(t, 1) == 16 && EndOf(t, 1) == 16;
  }

  /** Integers of 24 bits take four bytes each: the range for the second one starts at bit 24, its
      memory at bit 32. */
  lemma PaddedElementMisplaced(val: Bits)
    requires |val| == 64 && val[48]
    ensures var t := Array(2, Scalar(IntTy(24)));
            ScalarPath(t, [1]) && SizeInBits(t) == 64 && !Unpadded(t, [1]) &&
            PieceAt(t, val, [1]).lo == 24 && 8 * PathOff(t, [1]) == 32 &&
            IsZero(Stored(PieceAt(t, val, [1]))) && !IsZero(MemoryBits(t, [1], val))
  {
    var e := Scalar(IntTy(24));
    var t := Array(2, e);
    assert IntBytes(24, 4) == 4;
    assert IntBytes(24, 2) == IntBytes(24, 4);
    assert IntBytes(24, 1) == IntBytes(24, 2);
    assert Size(e) == 4 && SizeInBits(e) == 24 && t.Elem(1) == e && [1][1..] == [];
    StoredBits(t, val, [1]);
    assert MemoryBits(t, [1], val)[16] == val[48];
  }
}
