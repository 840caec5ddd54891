/** What a lowered chunk initialization does to memory, and when that is what the chunk store did. */
module InitMemory {
  import opened Types
  import opened Layout
  import opened Wrappers
  import opened GepChain
  import opened ChunkMemory
  import opened InitSplit

  /** Memory bit by bit, by offset from the pointer; little-endian, so bit `k` of a value at byte `a` is at
      offset `8 * a + k`. */
  type BitMem = int -> bool

  function Bytes(bits: nat): nat { (bits + 7) / 8 }

  /** The bit at offset `o` after `value` was stored at offset `a` over one that was `was`.  A store writes
      whole bytes; the bits of the last one that the value does not have become unspecified. */
  function BitAfter(was: bool, a: int, value: Bits, unspecified: bool, o: int): bool {
    if a <= o < a + |value| then value[o - a]
    else if a + |value| <= o < a + 8 * Bytes(|value|) then unspecified
    else was
  }

  /** The chunk store. */
  function ChunkBit(val: Bits, m: BitMem, unspecified: BitMem, o: int): bool {
    BitAfter(m(o), 0, val, unspecified(o), o)
  }

  /** One emitted store. */
  function StoreBit(ty: Ty, store: Store, was: bool, unspecified: bool, o: int): bool
    requires GepAt(ty, store.path).Some?
  {
    BitAfter(was, 8 * GepAt(ty, store.path).value.off, store.value, unspecified, o)
  }

  ghost predicate AllPlaced(ty: Ty, stores: seq<Store>) {
    forall k: nat :: k < |stores| ==> GepAt(ty, stores[k].path).Some?
  }

  /** The first `n` of the emitted stores. */
  ghost function LoweredBit(ty: Ty, m: BitMem, unspecified: BitMem, stores: seq<Store>, o: int, n: nat): bool
    requires AllPlaced(ty, stores) && n <= |stores|
  {
    if n == 0 then m(o)
    else StoreBit(ty, stores[n - 1], LoweredBit(ty, m, unspecified, stores, o, n - 1), unspecified(o), o)
  }

  /** Whatever the bit was, the store makes it `bit`. */
  predicate Sets(ty: Ty, store: Store, unspecified: bool, o: int, bit: bool) {
    GepAt(ty, store.path).Some? &&
    StoreBit(ty, store, true, unspecified, o) == bit && StoreBit(ty, store, false, unspecified, o) == bit
  }

  predicate Keeps(ty: Ty, store: Store, unspecified: bool, o: int) {
    GepAt(ty, store.path).Some? &&
    StoreBit(ty, store, true, unspecified, o) && !StoreBit(ty, store, false, unspecified, o)
  }

  lemma {:induction false} AllKeep(ty: Ty, m: BitMem, unspecified: BitMem, stores: seq<Store>, o: int, n: nat)
    requires AllPlaced(ty, stores) && n <= |stores|
    requires forall k: nat :: k < n ==> Keeps(ty, stores[k], unspecified(o), o)
    ensures LoweredBit(ty, m, unspecified, stores, o, n) == m(o)
    decreases n
  {
    if n > 0 {
      AllKeep(ty, m, unspecified, stores, o, n - 1);
      assert Keeps(ty, stores[n - 1], unspecified(o), o);
    }
  }

  lemma {:induction false} OneSets(ty: Ty, m: BitMem, unspecified: BitMem, stores: seq<Store>, o: int, n: nat,
                                   k: nat, bit: bool)
    requires AllPlaced(ty, stores) && k < n <= |stores| && Sets(ty, stores[k], unspecified(o), o, bit)
    requires forall j: nat :: k < j < n ==> Keeps(ty, stores[j], unspecified(o), o)
    ensures LoweredBit(ty, m, unspecified, stores, o, n) == bit
    decreases n
  {
    if k < n - 1 {
      OneSets(ty, m, unspecified, stores, o, n - 1, k, bit);
      assert Keeps(ty, stores[n - 1], unspecified(o), o);
    }
  }

  // ----- bits of scalars -----

  /** The bit at offset `o` is a bit of the scalar at `p`. */
  predicate BitOf(t: Ty, p: Path, o: int) {
    ScalarPath(t, p) && 8 * PathOff(t, p) <= o < 8 * PathOff(t, p) + SizeInBits(SubTy(t, p))
  }

  ghost predicate ScalarBit(t: Ty, o: int) {
    exists p :: BitOf(t, p, o)
  }

  /** The bit at offset `o` is in the bytes allocated for the scalar at `p`. */
  predicate BitNear(t: Ty, p: Path, o: int) {
    ScalarPath(t, p) && 8 * PathOff(t, p) <= o < 8 * PathOff(t, p) + 8 * Size(SubTy(t, p))
  }

  lemma BitInside(t: Ty, p: Path, o: int)
    requires BitOf(t, p, o)
    ensures BitNear(t, p, o)
  {
    BitsFitBytes(SubTy(t, p));
  }

  lemma NearInside(t: Ty, p: Path, o: int)
    requires BitNear(t, p, o)
    ensures 0 <= o < 8 * Size(t)
  {
    PathInside(t, p);
  }

  lemma NearTail(t: Ty, p: Path, o: int)
    requires BitNear(t, p, o) && p != []
    ensures p[0] < t.Arity() && BitNear(t.Elem(p[0]), p[1..], o - 8 * PartOff(t, p[0]))
  {
  }

  lemma SameArm(t: Ty, i: nat, j: nat, o: int)
    requires i < t.Arity() && j < t.Arity()
    requires 0 <= o - 8 * PartOff(t, i) < 8 * Size(t.Elem(i)) && 0 <= o - 8 * PartOff(t, j) < 8 * Size(t.Elem(j))
    ensures i == j
  {
    if i < j { PartsDisjoint(t, i, j); }
    if j < i { PartsDisjoint(t, j, i); }
  }

  /** Scalars do not overlap. */
  lemma {:induction false} NearOnce(t: Ty, p: Path, q: Path, o: int)
    requires BitNear(t, p, o) && BitNear(t, q, o)
    ensures p == q
    decreases p
  {
    if p != [] && q != [] {
      NearTail(t, p, o);
      NearTail(t, q, o);
      NearInside(t.Elem(p[0]), p[1..], o - 8 * PartOff(t, p[0]));
      NearInside(t.Elem(q[0]), q[1..], o - 8 * PartOff(t, q[0]));
      SameArm(t, p[0], q[0], o);
      NearOnce(t.Elem(p[0]), p[1..], q[1..], o - 8 * PartOff(t, p[0]));
      assert p == [p[0]] + p[1..] && q == [q[0]] + q[1..];
    }
  }

  // ----- what the emitted stores do -----

  function Emissions(t: Ty, val: Bits): seq<Store> {
    Stores(Pieces(t, val, [0], 0, SizeInBits(t)))
  }

  /** The store is for the scalar at `p`. */
  predicate StoreFor(t: Ty, store: Store, p: Path) {
    ScalarPath(t, p) && GepAt(t, store.path) == Some(Place(PathOff(t, p), SubTy(t, p))) &&
    |store.value| == SizeInBits(SubTy(t, p))
  }

  /** There is one store for each scalar, in depth-first order. */
  ghost predicate OneEach(t: Ty, stores: seq<Store>) {
    |stores| == Count(t) && forall k: nat :: k < Count(t) ==> StoreFor(t, stores[k], Unrank(t, k))
  }

  lemma OneEachPlaced(t: Ty, stores: seq<Store>)
    requires OneEach(t, stores)
    ensures AllPlaced(t, stores)
  {
    forall k: nat | k < Count(t) ensures GepAt(t, stores[k].path).Some? { assert StoreFor(t, stores[k], Unrank(t, k)); }
  }

  lemma EmissionAt(t: Ty, val: Bits, k: nat)
    requires k < Count(t)
    ensures |Emissions(t, val)| == Count(t) && StoreFor(t, Emissions(t, val)[k], Unrank(t, k))
    ensures Emissions(t, val)[k].value == Stored(PieceAt(t, val, Unrank(t, k)))
  {
    var p := Unrank(t, k);
    PiecesCount(t, val, [0], 0, SizeInBits(t));
    ZeroThenPath(t, p);
    assert PieceFor(PieceAt(t, val, p), t, [0], 0, p);
  }

  lemma ZeroThenPath(t: Ty, p: Path)
    requires ValidPath(t, p)
    ensures GepAt(t, [0] + p) == Some(Place(PathOff(t, p), SubTy(t, p)))
  {
    WalkOfPath(t, p);
    AtStep(Row(t), 0, p);
  }

  lemma EmissionsOneEach(t: Ty, val: Bits)
    ensures OneEach(t, Emissions(t, val))
  {
    PiecesCount(t, val, [0], 0, SizeInBits(t));
    forall k: nat | k < Count(t) ensures StoreFor(t, Emissions(t, val)[k], Unrank(t, k)) { EmissionAt(t, val, k); }
  }

  /** A store leaves all bits alone that are not near its scalar. */
  lemma FarKept(t: Ty, store: Store, p: Path, unspecified: bool, o: int)
    requires StoreFor(t, store, p) && !BitNear(t, p, o)
    ensures Keeps(t, store, unspecified, o)
  {
    BitsFitBytes(SubTy(t, p));
    WholeBytes(|store.value|, Size(SubTy(t, p)));
  }

  lemma WholeBytes(bits: nat, bytes: nat)
    requires bits <= 8 * bytes
    ensures bits <= 8 * Bytes(bits) <= 8 * bytes
  {
  }

  lemma OwnSet(t: Ty, store: Store, p: Path, unspecified: bool, o: int)
    requires StoreFor(t, store, p) && BitOf(t, p, o)
    ensures Sets(t, store, unspecified, o, store.value[o - 8 * PathOff(t, p)])
  {
  }

  lemma OthersFar(t: Ty, p: Path, q: Path, o: int)
    requires BitOf(t, p, o) && p != q
    ensures !BitNear(t, q, o)
  {
    BitInside(t, p, o);
    if BitNear(t, q, o) { NearOnce(t, p, q, o); }
  }

  /** A bit of a scalar ends up with what is stored into that scalar. */
  lemma LoweredOf(t: Ty, m: BitMem, unspecified: BitMem, stores: seq<Store>, p: Path, r: nat, o: int)
    requires OneEach(t, stores) && AllPlaced(t, stores) && BitOf(t, p, o)
    requires r < Count(t) && Unrank(t, r) == p && |stores[r].value| == SizeInBits(SubTy(t, p))
    ensures LoweredBit(t, m, unspecified, stores, o, |stores|) == stores[r].value[o - 8 * PathOff(t, p)]
  {
    assert StoreFor(t, stores[r], Unrank(t, r));
    OwnSet(t, stores[r], p, unspecified(o), o);
    forall k: nat | r < k < Count(t) ensures Keeps(t, stores[k], unspecified(o), o) {
      assert StoreFor(t, stores[k], Unrank(t, k));
      OthersFar(t, p, Unrank(t, k), o);
      FarKept(t, stores[k], Unrank(t, k), unspecified(o), o);
    }
    OneSets(t, m, unspecified, stores, o, |stores|, r, stores[r].value[o - 8 * PathOff(t, p)]);
  }

  /** Outside the pointee nothing is written. */
  lemma LoweredOutside(t: Ty, m: BitMem, unspecified: BitMem, stores: seq<Store>, o: int)
    requires OneEach(t, stores) && AllPlaced(t, stores) && !(0 <= o < 8 * Size(t))
    ensures LoweredBit(t, m, unspecified, stores, o, |stores|) == m(o)
  {
    forall k: nat | k < Count(t) ensures Keeps(t, stores[k], unspecified(o), o) {
      assert StoreFor(t, stores[k], Unrank(t, k));
      if BitNear(t, Unrank(t, k), o) { NearInside(t, Unrank(t, k), o); }
      FarKept(t, stores[k], Unrank(t, k), unspecified(o), o);
    }
    AllKeep(t, m, unspecified, stores, o, |stores|);
  }

  /** The whole lowered initialization, bit by bit. */
  ghost function InitBit(t: Ty, val: Bits, m: BitMem, unspecified: BitMem, o: int): bool {
    EmissionsOneEach(t, val);
    OneEachPlaced(t, Emissions(t, val));
    LoweredBit(t, m, unspecified, Emissions(t, val), o, |Emissions(t, val)|)
  }

  lemma InitBitOf(t: Ty, val: Bits, m: BitMem, unspecified: BitMem, p: Path, o: int)
    requires BitOf(t, p, o)
    ensures InitBit(t, val, m, unspecified, o) == Stored(PieceAt(t, val, p))[o - 8 * PathOff(t, p)]
  {
    var r := Rank(t, p);
    RankInRange(t, p);
    RankInjective(t, p, Unrank(t, r));
    EmissionsOneEach(t, val);
    OneEachPlaced(t, Emissions(t, val));
    EmissionAt(t, val, r);
    LoweredOf(t, m, unspecified, Emissions(t, val), p, r, o);
  }

  lemma InitBitOutside(t: Ty, val: Bits, m: BitMem, unspecified: BitMem, o: int)
    requires !(0 <= o < 8 * Size(t))
    ensures InitBit(t, val, m, unspecified, o) == m(o)
  {
    EmissionsOneEach(t, val);
    OneEachPlaced(t, Emissions(t, val));
    LoweredOutside(t, m, unspecified, Emissions(t, val), o);
  }

  // ----- when the lowered initialization is right -----

  /** The lowered initialization leaves in the bit at offset `o` what the chunk store leaves there, unless
      the bit is padding of the pointee or the chunk store leaves it unspecified. */
  ghost predicate RightBit(t: Ty, val: Bits, m: BitMem, unspecified: BitMem, o: int) {
    (ScalarBit(t, o) || !(0 <= o < 8 * Size(t))) && !(|val| <= o < 8 * Bytes(|val|)) ==>
      InitBit(t, val, m, unspecified, o) == ChunkBit(val, m, unspecified, o)
  }

  /** The pass goes through and the lowered initialization does to any memory what the chunk store does. */
  ghost predicate RightInit(asserts: bool, t: Ty, val: Bits) {
    Lowers(asserts, t, val, 0, SizeInBits(t)) &&
    forall m: BitMem, unspecified: BitMem, o: int :: RightBit(t, val, m, unspecified, o)
  }

  /** All bits of scalars lie within the bytes of the constant. */
  ghost predicate AllCovered(t: Ty, val: Bits) {
    forall p, o :: BitOf(t, p, o) ==> o < 8 * Bytes(|val|)
  }

  /** The constant sets no bit of a scalar but the low 64 of the first one. */
  ghost predicate OnlyFirstWord(t: Ty, val: Bits) {
    forall p, o :: BitOf(t, p, o) && o < |val| && val[o] ==> PathOff(t, p) == 0 && o < 64
  }

  /** What is stored into a scalar, where the constant has a bit for it. */
  lemma StoredBit(asserts: bool, t: Ty, val: Bits, p: Path, o: int)
    requires BitOf(t, p, o) && o < |val| && Lowers(asserts, t, val, 0, SizeInBits(t))
    ensures Stored(PieceAt(t, val, p))[o - 8 * PathOff(t, p)] == (PathOff(t, p) == 0 && o < 64 && val[o])
  {
    if !t.Scalar? {
      ConstantReaches(asserts, t, val, p);
      StoredBits(t, val, p);
    }
  }

  /** Exactly when a lowered initialization is right: it goes through, the constant reaches neither behind
      the pointee nor ends before a scalar of it, and it sets no bit of any scalar but the low 64 of the
      first one. */
  lemma RightInitIff(asserts: bool, t: Ty, val: Bits)
    ensures RightInit(asserts, t, val) <==>
            Lowers(asserts, t, val, 0, SizeInBits(t)) && |val| <= 8 * Size(t) && AllCovered(t, val) &&
            OnlyFirstWord(t, val)
  {
    if RightInit(asserts, t, val) {
      RightEnds(asserts, t, val);
      forall p, o | BitOf(t, p, o) ensures o < 8 * Bytes(|val|) { RightCovers(asserts, t, val, p, o); }
      forall p, o | BitOf(t, p, o) && o < |val| && val[o] ensures PathOff(t, p) == 0 && o < 64 {
        RightOnlyFirst(asserts, t, val, p, o);
      }
    }
    if Lowers(asserts, t, val, 0, SizeInBits(t)) && |val| <= 8 * Size(t) && AllCovered(t, val) &&
       OnlyFirstWord(t, val) {
      forall m: BitMem, unspecified: BitMem, o: int ensures RightBit(t, val, m, unspecified, o) {
        GoodBit(asserts, t, val, m, unspecified, o);
      }
    }
  }

  lemma RightEnds(asserts: bool, t: Ty, val: Bits)
    requires RightInit(asserts, t, val)
    ensures |val| <= 8 * Size(t)
  {
    if |val| > 8 * Size(t) {
      var o := |val| - 1;
      var m: BitMem := x => !val[o];
      assert RightBit(t, val, m, m, o);
      InitBitOutside(t, val, m, m, o);
    }
  }

  /** At a specified bit of a scalar, what is stored is what the chunk store leaves there. */
  lemma RightMeans(asserts: bool, t: Ty, val: Bits, m: BitMem, p: Path, o: int)
    requires RightInit(asserts, t, val) && BitOf(t, p, o) && !(|val| <= o < 8 * Bytes(|val|))
    ensures Stored(PieceAt(t, val, p))[o - 8 * PathOff(t, p)] == ChunkBit(val, m, m, o)
  {
    assert ScalarBit(t, o);
    assert RightBit(t, val, m, m, o);
    InitBitOf(t, val, m, m, p, o);
  }

  lemma RightCovers(asserts: bool, t: Ty, val: Bits, p: Path, o: int)
    requires RightInit(asserts, t, val) && BitOf(t, p, o)
    ensures o < 8 * Bytes(|val|)
  {
    if o >= 8 * Bytes(|val|) {
      var stored := Stored(PieceAt(t, val, p))[o - 8 * PathOff(t, p)];
      var m: BitMem := x => !stored;
      RightMeans(asserts, t, val, m, p, o);
      BehindConstant(val, m, o);
    }
  }

  lemma BehindConstant(val: Bits, m: BitMem, o: int)
    requires o >= 8 * Bytes(|val|)
    ensures ChunkBit(val, m, m, o) == m(o)
  {
  }

  lemma RightOnlyFirst(asserts: bool, t: Ty, val: Bits, p: Path, o: int)
    requires RightInit(asserts, t, val) && BitOf(t, p, o) && o < |val| && val[o]
    ensures PathOff(t, p) == 0 && o < 64
  {
    RightMeans(asserts, t, val, x => false, p, o);
    StoredBit(asserts, t, val, p, o);
  }

  lemma GoodBit(asserts: bool, t: Ty, val: Bits, m: BitMem, unspecified: BitMem, o: int)
    requires Lowers(asserts, t, val, 0, SizeInBits(t)) && |val| <= 8 * Size(t)
    requires AllCovered(t, val) && OnlyFirstWord(t, val)
    ensures RightBit(t, val, m, unspecified, o)
  {
    if !(0 <= o < 8 * Size(t)) {
      InitBitOutside(t, val, m, unspecified, o);
    } else if p :| BitOf(t, p, o) {
      InitBitOf(t, val, m, unspecified, p, o);
      if o < |val| { StoredBit(asserts, t, val, p, o); }
    }
  }

  /** A struct of one machine word is always initialized rightly. */
  lemma OneWordIsRight(asserts: bool, val: Bits)
    requires |val| == 64
    ensures RightInit(asserts, Struct([Scalar(IntTy(64))]), val)
  {
    var e := Scalar(IntTy(64));
    var t := Struct([e]);
    OneWord();
    OneWordLowers(asserts, t, val);
    assert Bytes(64) == 8;
    forall p, o | BitOf(t, p, o) ensures PathOff(t, p) == 0 && o < 64 { OneWordBit(t, p, o); }
    RightInitIff(asserts, t, val);
  }

  lemma OneWordLowers(asserts: bool, t: Ty, val: Bits)
    requires |val| == 64 && t == Struct([Scalar(IntTy(64))])
    ensures Lowers(asserts, t, val, 0, 64)
  {
    assert t.Elem(0) == Scalar(IntTy(64)) && LowersBefore(asserts, t, val, 0, 64, 0);
    assert LowersPart(asserts, t, val, 0, 64, 0);
  }

  lemma OneWordBit(t: Ty, p: Path, o: int)
    requires t == Struct([Scalar(IntTy(64))]) && Size(t) == 8 && PartOff(t, 0) == 0 && BitOf(t, p, o)
    ensures PathOff(t, p) == 0 && o < 64
  {
    assert t.Elem(p[0]) == Scalar(IntTy(64));
    NoParts(t.Elem(p[0]), p[1..]);
    BitInside(t, p, o);
    NearInside(t, p, o);
  }

  lemma NoParts(e: Ty, q: Path)
    requires e.Scalar? && ValidPath(e, q)
    ensures q == []
  {
  }

  lemma OneWord()
    ensures var t := Struct([Scalar(IntTy(64))]);
            Size(t) == 8 && PartOff(t, 0) == 0
  {
    var e := Scalar(IntTy(64));
    var t := Struct([e]);
    assert IntBytes(64, 8) == 8;
    assert IntBytes(64, 4) == IntBytes(64, 8);
    assert IntBytes(64, 2) == IntBytes(64, 4);
    assert IntBytes(64, 1) == IntBytes(64, 2);
    assert t.Elem(0) == e && AlignBefore(t, 1) == 8 && EndOf(t, 1) == 8;
  }
}
