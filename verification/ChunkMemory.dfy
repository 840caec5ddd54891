/** What a lowered chunk copy does to memory, and when that is what the chunk copy did. */
module ChunkMemory {
  import opened Types
  import opened Layout
  import opened Wrappers
  import opened GepChain
  import opened ChunkCopy

  // ----- bytes that are no padding -----

  /** How many bytes a load or a store of a type moves: less than the allocation size for an integer
      that does not fill it. */
  function Width(t: Ty): nat {
    if t.Scalar? && t.prim.IntTy? then Max(1, (t.prim.bits + 7) / 8) else Size(t)
  }

  lemma WidthInside(t: Ty)
    ensures Width(t) <= Size(t)
    ensures t.Scalar? ==> Width(t) >= 1
  {
    if t.Scalar? && t.prim.IntTy? { IntBytesHold(t.prim.bits, 1); }
  }

  /** The byte at offset `o` is in the part of `t` at `p`. */
  predicate Reach(t: Ty, p: Path, o: int) {
    ValidPath(t, p) && PathOff(t, p) <= o < PathOff(t, p) + Width(SubTy(t, p))
  }

  /** The byte at offset `o` of a type is in one of its scalars, and so no padding. */
  ghost predicate Occupied(t: Ty, o: int) {
    exists p :: ScalarPath(t, p) && Reach(t, p, o)
  }

  /** The same, found part by part. */
  predicate Data(t: Ty, o: int)
    decreases t, t.Arity() + 1
  {
    if t.Scalar? then 0 <= o < Width(t) else DataBefore(t, o, t.Arity())
  }

  predicate DataBefore(t: Ty, o: int, n: nat)
    requires n <= t.Arity()
    decreases t, n
  {
    n > 0 && (DataBefore(t, o, n - 1) || Data(t.Elem(n - 1), o - PartOff(t, n - 1)))
  }

  predicate PartData(t: Ty, i: nat, o: int)
    requires i < t.Arity()
  {
    Data(t.Elem(i), o - PartOff(t, i))
  }

  lemma {:induction false} PartOfData(t: Ty, o: int, n: nat) returns (i: nat)
    requires n <= t.Arity() && DataBefore(t, o, n)
    ensures i < n && PartData(t, i, o)
    decreases n
  {
    if DataBefore(t, o, n - 1) { i := PartOfData(t, o, n - 1); } else { i := n - 1; }
  }

  lemma {:induction false} DataOfPart(t: Ty, i: nat, o: int, n: nat)
    requires i < n <= t.Arity() && PartData(t, i, o)
    ensures DataBefore(t, o, n)
    decreases n
  {
    if i < n - 1 { DataOfPart(t, i, o, n - 1); }
  }

  lemma ReachPart(t: Ty, i: nat, q: Path, o: int)
    requires i < t.Arity()
    ensures Reach(t, [i] + q, o) <==> Reach(t.Elem(i), q, o - PartOff(t, i))
    ensures ScalarPath(t, [i] + q) <==> ScalarPath(t.Elem(i), q)
  {
    assert ([i] + q)[1..] == q;
  }

  lemma DataIff(t: Ty, o: int)
    ensures Data(t, o) <==> Occupied(t, o)
  {
    if Data(t, o) { DataOccupied(t, o); }
    if p :| ScalarPath(t, p) && Reach(t, p, o) { ReachData(t, p, o); }
  }

  lemma {:induction false} DataOccupied(t: Ty, o: int)
    requires Data(t, o)
    ensures Occupied(t, o)
    decreases t
  {
    if t.Scalar? {
      assert ScalarPath(t, []) && Reach(t, [], o);
    } else {
      var i := PartOfData(t, o, t.Arity());
      DataOccupied(t.Elem(i), o - PartOff(t, i));
      var q :| ScalarPath(t.Elem(i), q) && Reach(t.Elem(i), q, o - PartOff(t, i));
      ReachPart(t, i, q, o);
    }
  }

  lemma {:induction false} ReachData(t: Ty, p: Path, o: int)
    requires ScalarPath(t, p) && Reach(t, p, o)
    ensures Data(t, o)
    decreases p
  {
    if p != [] {
      ReachTail(t, p, o);
      ReachData(t.Elem(p[0]), p[1..], o - PartOff(t, p[0]));
      PartIsData(t, p[0], o);
    }
  }

  lemma ReachTail(t: Ty, p: Path, o: int)
    requires ScalarPath(t, p) && Reach(t, p, o) && p != []
    ensures p[0] < t.Arity() && ScalarPath(t.Elem(p[0]), p[1..])
    ensures Reach(t.Elem(p[0]), p[1..], o - PartOff(t, p[0]))
  {
  }

  lemma PartIsData(t: Ty, i: nat, o: int)
    requires i < t.Arity() && PartData(t, i, o)
    ensures Data(t, o)
  {
    DataOfPart(t, i, o, t.Arity());
  }

  lemma {:induction false} DataInside(t: Ty, o: int)
    requires Data(t, o)
    ensures 0 <= o < Size(t) && Count(t) > 0
    decreases t
  {
    if t.Scalar? {
      WidthInside(t);
    } else {
      var i := PartOfData(t, o, t.Arity());
      DataInside(t.Elem(i), o - PartOff(t, i));
      PartsDisjoint(t, i, t.Arity());
      CountOfParts(t);
      CountBeforeMonotone(t, i, t.Arity());
    }
  }

  /** A type that has bytes has no padding in front. */
  lemma {:induction false} FirstByte(t: Ty)
    requires Size(t) > 0
    ensures Data(t, 0)
    decreases t
  {
    match t
    case Scalar(_) =>
      WidthInside(t);
    case Array(len, elem) =>
      assert len > 0 && Size(elem) > 0;
      FirstByte(t.Elem(0));
      DataOfPart(t, 0, 0, len);
    case Struct(fields) =>
      AlignZero(Align(t));
      var i := FirstField(t, |fields|);
      FirstByte(t.Elem(i));
      DataOfPart(t, i, 0, |fields|);
  }

  lemma AlignZero(a: nat)
    requires a >= 1
    ensures AlignUp(0, a) == 0
  {
  }

  /** The first field that has bytes is at offset 0. */
  lemma {:induction false} FirstField(t: Ty, n: nat) returns (i: nat)
    requires t.Struct? && n <= t.Arity() && EndOf(t, n) > 0
    ensures i < n && PartOff(t, i) == 0 && Size(t.Elem(i)) > 0
    decreases n
  {
    if EndOf(t, n - 1) > 0 {
      i := FirstField(t, n - 1);
    } else {
      i := n - 1;
      AlignZero(Align(t.Elem(i)));
    }
  }

  // ----- loads, stores and address computations -----

  /** Bytes by address. */
  type Mem = int -> int

  /** What a store at `b` writes when the value was loaded at `a`: its padding is undefined. */
  function Moved(t: Ty, m: Mem, undef: Mem, a: int, b: int): (r: seq<int>)
    ensures |r| == Width(t)
  {
    seq(Width(t), k requires 0 <= k < Width(t) => if Data(t, k) then m(a + k) else undef(b + k))
  }

  /** The item at address `x` after `items` were written at `a` over one that was `was`. */
  function Written<T>(was: T, a: int, items: seq<T>, x: int): T {
    if a <= x < a + |items| then items[x - a] else was
  }

  /** The chunk copy, byte by byte: the load reads memory `m1`, the store writes memory `m2`;
      anything may have happened in between. */
  function CopyChunk(chunk: Ty, m1: Mem, m2: Mem, undef: Mem, src: int, dst: int, x: int): int {
    Written(m2(x), dst, Moved(chunk, m1, undef, src, dst), x)
  }

  /** What an emitted address computation over a pointer denotes: how far from the pointer, and the
      type that is loaded and stored there. */
  datatype Place = Place(off: int, ty: Ty)

  /** The first index strides over pointees in a row, the others step into the pointee; steps over
      elements may leave an array. */
  function Row(ty: Ty): Ty { Array(1, ty) }

  function At(t: Ty, path: Path): Option<Place> {
    if Walk(t, path).Some? then Some(Place(WalkOff(t, path), Walk(t, path).value)) else None
  }

  function GepAt(ty: Ty, path: Path): Option<Place> {
    if path == [] then None else At(Row(ty), path)
  }

  lemma AtStep(t: Ty, i: nat, q: Path)
    ensures At(t, [i] + q).Some? <==> Steps(t, i) && At(Into(t, i), q).Some?
    ensures At(t, [i] + q).Some? ==>
            var inner := At(Into(t, i), q).value;
            At(t, [i] + q) == Some(Place(StepOff(t, i) + inner.off, inner.ty))
  {
    assert ([i] + q)[1..] == q;
  }

  lemma {:induction false} WalkForward(t: Ty, p: Path)
    requires Walk(t, p).Some?
    ensures WalkOff(t, p) >= 0
    decreases p
  {
    if p != [] { WalkForward(Into(t, p[0]), p[1..]); }
  }

  /** What a path into `t` denotes ends by `n`. */
  predicate EndsBy(t: Ty, p: Path, n: int) {
    At(t, p).Some? && At(t, p).value.off + Width(At(t, p).value.ty) <= n
  }

  ghost predicate AllEndBy(t: Ty, paths: seq<Path>, n: int) {
    forall k: nat :: k < |paths| ==> EndsBy(t, paths[k], n)
  }

  ghost predicate AllRead(ty: Ty, paths: seq<Path>) {
    forall p | p in paths :: GepAt(ty, p).Some?
  }

  /** The byte at address `x` after the lowered copy: the loads read `m1` one after another, the
      stores write their values to `m2` one after another. */
  ghost function LoweredByte(ty: Ty, m1: Mem, m2: Mem, undef: Mem, src: int, dst: int, paths: seq<Path>, x: int): int
    requires AllRead(ty, paths)
  {
    if paths == [] then m2(x)
    else
      var p := paths[|paths| - 1];
      assert p in paths;
      var place := GepAt(ty, p).value;
      Written(LoweredByte(ty, m1, m2, undef, src, dst, paths[..|paths| - 1], x), dst + place.off,
              Moved(place.ty, m1, undef, src + place.off, dst + place.off), x)
  }

  // ----- which store has the last word on a byte -----

  datatype Effect = Untouched | Copied | Blurred {
    function Then(next: Effect): Effect {
      if next.Untouched? then this else next
    }
  }

  /** What moving a value of type `t` does to the byte at offset `o` of it. */
  function MoveEffect(t: Ty, o: int): Effect {
    if Data(t, o) then Copied else if 0 <= o < Width(t) then Blurred else Untouched
  }

  function PlaceEffect(place: Option<Place>, o: int): Effect {
    if place.Some? then MoveEffect(place.value.ty, o - place.value.off) else Untouched
  }

  /** What moving everything the paths into `t` denote, one after another, does to the byte at `o`. */
  function ListEffect(t: Ty, paths: seq<Path>, o: int): Effect {
    FirstEffects(t, paths, o, |paths|)
  }

  function FirstEffects(t: Ty, paths: seq<Path>, o: int, n: nat): Effect
    requires n <= |paths|
  {
    if n == 0 then Untouched
    else FirstEffects(t, paths, o, n - 1).Then(PlaceEffect(At(t, paths[n - 1]), o))
  }

  lemma {:induction false} SameFirst(t: Ty, ps: seq<Path>, qs: seq<Path>, o: int, n: nat)
    requires n <= |ps| && n <= |qs| && ps[..n] == qs[..n]
    ensures FirstEffects(t, ps, o, n) == FirstEffects(t, qs, o, n)
    decreases n
  {
    if n > 0 {
      assert ps[..n][n - 1] == qs[..n][n - 1];
      assert ps[..n - 1] == ps[..n][..n - 1] && qs[..n - 1] == qs[..n][..n - 1];
      SameFirst(t, ps, qs, o, n - 1);
    }
  }

  function ByteAfter(e: Effect, copied: int, was: int, undef: int): int {
    match e
    case Untouched => was
    case Copied => copied
    case Blurred => undef
  }

  lemma OneMove(place: Place, m1: Mem, undef: Mem, was: int, src: int, dst: int, o: int)
    ensures Written(was, dst + place.off, Moved(place.ty, m1, undef, src + place.off, dst + place.off), dst + o) ==
            ByteAfter(PlaceEffect(Some(place), o), m1(src + o), was, undef(dst + o))
  {
    var k := o - place.off;
    if Data(place.ty, k) { DataWithinWidth(place.ty, k); }
    if 0 <= k < Width(place.ty) {
      assert src + place.off + k == src + o && dst + place.off + k == dst + o;
    }
  }

  lemma DataWithinWidth(t: Ty, o: int)
    requires Data(t, o)
    ensures 0 <= o < Width(t)
  {
    DataInside(t, o);
  }

  /** A byte ends up with what the last store that touches it gives it: the byte at the same offset of
      the source, unless that is padding of what is stored. */
  lemma {:induction false} LoweredIs(ty: Ty, m1: Mem, m2: Mem, undef: Mem, src: int, dst: int, paths: seq<Path>, o: int)
    requires AllRead(ty, paths)
    ensures LoweredByte(ty, m1, m2, undef, src, dst, paths, dst + o) ==
            ByteAfter(ListEffect(Row(ty), paths, o), m1(src + o), m2(dst + o), undef(dst + o))
    decreases |paths|
  {
    if paths != [] {
      var init, p := paths[..|paths| - 1], paths[|paths| - 1];
      assert p in paths;
      LoweredIs(ty, m1, m2, undef, src, dst, init, o);
      SameFirst(Row(ty), init, paths, o, |init|);
      OneMove(GepAt(ty, p).value, m1, undef, LoweredByte(ty, m1, m2, undef, src, dst, init, dst + o), src, dst, o);
    }
  }

  lemma ChunkCopied(chunk: Ty, m1: Mem, m2: Mem, undef: Mem, src: int, dst: int, o: int)
    ensures CopyChunk(chunk, m1, m2, undef, src, dst, dst + o) ==
            ByteAfter(MoveEffect(chunk, o), m1(src + o), m2(dst + o), undef(dst + o))
  {
    OneMove(Place(0, chunk), m1, undef, m2(dst + o), src, dst, o);
  }

  lemma OutsideUntouched(t: Ty, paths: seq<Path>, n: int, o: int)
    requires AllEndBy(t, paths, n) && !(0 <= o < n)
    ensures ListEffect(t, paths, o) == Untouched
  {
    FirstOutside(t, paths, n, o, |paths|);
  }

  lemma {:induction false} FirstOutside(t: Ty, paths: seq<Path>, n: int, o: int, k: nat)
    requires AllEndBy(t, paths, n) && !(0 <= o < n) && k <= |paths|
    ensures FirstEffects(t, paths, o, k) == Untouched
    decreases k
  {
    if k > 0 {
      assert EndsBy(t, paths[k - 1], n);
      WalkForward(t, paths[k - 1]);
      PlaceOutside(At(t, paths[k - 1]).value, n, o);
      FirstOutside(t, paths, n, o, k - 1);
    }
  }

  lemma PlaceOutside(place: Place, n: int, o: int)
    requires place.off >= 0 && place.off + Width(place.ty) <= n && !(0 <= o < n)
    ensures PlaceEffect(Some(place), o) == Untouched
  {
    if Data(place.ty, o - place.off) { DataWithinWidth(place.ty, o - place.off); }
  }

  // ----- when the lowered copy is right -----

  /** Pointees lie one after another; the byte at offset `o` is no padding of its pointee. */
  ghost predicate RowByte(ty: Ty, o: int) {
    exists i: nat :: PointeeByte(ty, i, o)
  }

  ghost predicate PointeeByte(ty: Ty, i: nat, o: int) {
    Occupied(ty, o - i * Size(ty))
  }

  /** A byte that the chunk copy must get to its place: it is padding neither of the chunk nor of the
      pointee it belongs to. */
  ghost predicate ChunkByte(chunk: Ty, ty: Ty, o: int) {
    Occupied(chunk, o) && RowByte(ty, o)
  }

  /** At offset `o` the lowered copy does what the chunk copy does; padding inside the chunk may become
      anything. */
  ghost predicate RightAt(chunk: Ty, ty: Ty, m1: Mem, m2: Mem, undef: Mem, src: int, dst: int, o: int)
    requires Size(ty) > 0 && AllRead(ty, Emitted(Size(chunk), ty))
  {
    var b := LoweredByte(ty, m1, m2, undef, src, dst, Emitted(Size(chunk), ty), dst + o);
    (ChunkByte(chunk, ty, o) ==> b == CopyChunk(chunk, m1, m2, undef, src, dst, dst + o)) &&
    (!(0 <= o < Width(chunk)) ==> b == m2(dst + o))
  }

  /** The emitted address computations have indices and stay within the bytes of the chunk. */
  ghost predicate StaysInside(chunk: Ty, ty: Ty)
    requires Size(ty) > 0
  {
    [] !in Emitted(Size(chunk), ty) && AllEndBy(Row(ty), Emitted(Size(chunk), ty), Width(chunk))
  }

  lemma InsideRead(ty: Ty, paths: seq<Path>, n: int)
    requires [] !in paths && AllEndBy(Row(ty), paths, n)
    ensures AllRead(ty, paths)
  {
    forall p | p in paths ensures GepAt(ty, p).Some? {
      var k :| 0 <= k < |paths| && paths[k] == p;
      assert EndsBy(Row(ty), paths[k], n);
    }
  }

  /** No emitted address leaves the chunk, and for all memories and places the lowered copy writes what
      the chunk copy writes. */
  ghost predicate Right(chunk: Ty, ty: Ty)
    requires Size(ty) > 0
  {
    StaysInside(chunk, ty) && AllRead(ty, Emitted(Size(chunk), ty)) &&
    forall m1: Mem, m2: Mem, undef: Mem, src: int, dst: int, o: int ::
      RightAt(chunk, ty, m1, m2, undef, src, dst, o)
  }

  /** All bytes that matter are copied. */
  ghost predicate AllCopied(chunk: Ty, ty: Ty)
    requires Size(ty) > 0
  {
    forall o :: ChunkByte(chunk, ty, o) ==> ListEffect(Row(ty), Emitted(Size(chunk), ty), o).Copied?
  }

  lemma RightIsCopying(chunk: Ty, ty: Ty)
    requires Size(ty) > 0
    ensures Right(chunk, ty) <==> StaysInside(chunk, ty) && AllCopied(chunk, ty)
  {
    if Right(chunk, ty) {
      forall o | ChunkByte(chunk, ty, o) ensures ListEffect(Row(ty), Emitted(Size(chunk), ty), o).Copied? {
        RightCopies(chunk, ty, o);
      }
    }
    if StaysInside(chunk, ty) && AllCopied(chunk, ty) {
      InsideRead(ty, Emitted(Size(chunk), ty), Width(chunk));
      forall m1: Mem, m2: Mem, undef: Mem, src: int, dst: int, o: int
        ensures RightAt(chunk, ty, m1, m2, undef, src, dst, o)
      {
        CopyingIsRight(chunk, ty, m1, m2, undef, src, dst, o);
      }
    }
  }

  lemma RightMeans(chunk: Ty, ty: Ty, m1: Mem, m2: Mem, undef: Mem, src: int, dst: int, o: int)
    requires Size(ty) > 0 && AllRead(ty, Emitted(Size(chunk), ty)) && ChunkByte(chunk, ty, o)
    requires RightAt(chunk, ty, m1, m2, undef, src, dst, o)
    ensures ByteAfter(ListEffect(Row(ty), Emitted(Size(chunk), ty), o), m1(src + o), m2(dst + o), undef(dst + o)) ==
            m1(src + o)
  {
    LoweredIs(ty, m1, m2, undef, src, dst, Emitted(Size(chunk), ty), o);
    ChunkCopied(chunk, m1, m2, undef, src, dst, o);
    DataIff(chunk, o);
  }

  /** Copying ones over zeros shows which bytes are copied. */
  lemma RightCopies(chunk: Ty, ty: Ty, o: int)
    requires Size(ty) > 0 && Right(chunk, ty) && ChunkByte(chunk, ty, o)
    ensures ListEffect(Row(ty), Emitted(Size(chunk), ty), o).Copied?
  {
    var m1: Mem, m2: Mem := x => 1, x => 0;
    assert RightAt(chunk, ty, m1, m2, m2, 0, 0, o);
    RightMeans(chunk, ty, m1, m2, m2, 0, 0, o);
  }

  lemma CopyingIsRight(chunk: Ty, ty: Ty, m1: Mem, m2: Mem, undef: Mem, src: int, dst: int, o: int)
    requires Size(ty) > 0 && AllRead(ty, Emitted(Size(chunk), ty))
    requires StaysInside(chunk, ty) && AllCopied(chunk, ty)
    ensures RightAt(chunk, ty, m1, m2, undef, src, dst, o)
  {
    LoweredIs(ty, m1, m2, undef, src, dst, Emitted(Size(chunk), ty), o);
    ChunkCopied(chunk, m1, m2, undef, src, dst, o);
    DataIff(chunk, o);
    if !(0 <= o < Width(chunk)) {
      OutsideUntouched(Row(ty), Emitted(Size(chunk), ty), Width(chunk), o);
      if Data(chunk, o) { DataWithinWidth(chunk, o); }
    }
  }

  // ----- the test on the types -----

  /** The scalars of `a`, read as paths into `b`, denote something that ends by `n`. */
  predicate Inside(a: Ty, b: Ty, n: int)
    decreases a, a.Arity() + 1
  {
    if a.Scalar? then Width(b) <= n else InsideBefore(a, b, n, a.Arity())
  }

  predicate InsideBefore(a: Ty, b: Ty, n: int, k: nat)
    requires k <= a.Arity()
    decreases a, k
  {
    k == 0 ||
    (InsideBefore(a, b, n, k - 1) &&
     (Count(a.Elem(k - 1)) == 0 ||
      (Steps(b, k - 1) && Inside(a.Elem(k - 1), Into(b, k - 1), n - StepOff(b, k - 1)))))
  }

  /** What moving the scalars of `a`, read as paths into `b`, one after another does to the byte at
      offset `o` of `b`. */
  function Effects(a: Ty, b: Ty, o: int): Effect
    decreases a, a.Arity() + 1
  {
    if a.Scalar? then MoveEffect(b, o) else EffectsBefore(a, b, o, a.Arity())
  }

  function EffectsBefore(a: Ty, b: Ty, o: int, n: nat): Effect
    requires n <= a.Arity()
    decreases a, n
  {
    if n == 0 then Untouched
    else
      EffectsBefore(a, b, o, n - 1).Then(
        if Steps(b, n - 1) then Effects(a.Elem(n - 1), Into(b, n - 1), o - StepOff(b, n - 1)) else Untouched)
  }

  lemma ListJoin(t: Ty, ps: seq<Path>, qs: seq<Path>, o: int)
    ensures ListEffect(t, ps + qs, o) == ListEffect(t, ps, o).Then(ListEffect(t, qs, o))
  {
    FirstJoin(t, ps, qs, o, |qs|);
  }

  lemma {:induction false} FirstJoin(t: Ty, ps: seq<Path>, qs: seq<Path>, o: int, n: nat)
    requires n <= |qs|
    ensures FirstEffects(t, ps + qs, o, |ps| + n) == ListEffect(t, ps, o).Then(FirstEffects(t, qs, o, n))
    decreases n
  {
    if n == 0 {
      SameFirst(t, ps, ps + qs, o, |ps|);
    } else {
      FirstJoin(t, ps, qs, o, n - 1);
      assert (ps + qs)[|ps| + n - 1] == qs[n - 1];
    }
  }

  /** Paths that begin with one index are paths into that part. */
  lemma {:induction false} ListUnder(t: Ty, i: nat, ps: seq<Path>, o: int, n: nat)
    requires n <= |ps|
    ensures FirstEffects(t, Under([i], ps), o, n) ==
            if Steps(t, i) then FirstEffects(Into(t, i), ps, o - StepOff(t, i), n) else Untouched
    decreases n
  {
    if n > 0 {
      ListUnder(t, i, ps, o, n - 1);
      AtStep(t, i, ps[n - 1]);
      assert Under([i], ps)[n - 1] == [i] + ps[n - 1];
    }
  }

  /** The effect of the listed paths is found by recursion over the two types. */
  lemma {:induction false} EffectsOfList(a: Ty, b: Ty, o: int)
    ensures ListEffect(b, ScalarPaths(a), o) == Effects(a, b, o)
    decreases a, a.Arity() + 1
  {
    if a.Scalar? {
      assert FirstEffects(b, [[]], o, 0) == Untouched;
    } else {
      EffectsOfParts(a, b, o, a.Arity());
    }
  }

  lemma {:induction false} EffectsOfParts(a: Ty, b: Ty, o: int, n: nat)
    requires n <= a.Arity()
    ensures ListEffect(b, ScalarPathsBefore(a, n), o) == EffectsBefore(a, b, o, n)
    decreases a, n
  {
    if n > 0 {
      EffectsOfParts(a, b, o, n - 1);
      EffectOfPart(a, b, o, n - 1);
      EffectStep(a, b, o, n);
    }
  }

  lemma {:induction false} EffectOfPart(a: Ty, b: Ty, o: int, i: nat)
    requires i < a.Arity()
    ensures ListEffect(b, Under([i], ScalarPaths(a.Elem(i))), o) ==
            if Steps(b, i) then Effects(a.Elem(i), Into(b, i), o - StepOff(b, i)) else Untouched
    decreases a, i
  {
    ListUnder(b, i, ScalarPaths(a.Elem(i)), o, |ScalarPaths(a.Elem(i))|);
    if Steps(b, i) { EffectsOfList(a.Elem(i), Into(b, i), o - StepOff(b, i)); }
  }

  lemma EffectStep(a: Ty, b: Ty, o: int, n: nat)
    requires 0 < n <= a.Arity()
    requires ListEffect(b, ScalarPathsBefore(a, n - 1), o) == EffectsBefore(a, b, o, n - 1)
    requires ListEffect(b, Under([n - 1], ScalarPaths(a.Elem(n - 1))), o) ==
             if Steps(b, n - 1) then Effects(a.Elem(n - 1), Into(b, n - 1), o - StepOff(b, n - 1)) else Untouched
    ensures ListEffect(b, ScalarPathsBefore(a, n), o) == EffectsBefore(a, b, o, n)
  {
    ListJoin(b, ScalarPathsBefore(a, n - 1), Under([n - 1], ScalarPaths(a.Elem(n - 1))), o);
  }

  lemma EndJoin(t: Ty, ps: seq<Path>, qs: seq<Path>, n: int)
    ensures AllEndBy(t, ps + qs, n) <==> AllEndBy(t, ps, n) && AllEndBy(t, qs, n)
  {
    if AllEndBy(t, ps + qs, n) {
      forall k: nat | k < |ps| ensures EndsBy(t, ps[k], n) { assert EndsBy(t, (ps + qs)[k], n); }
      forall k: nat | k < |qs| ensures EndsBy(t, qs[k], n) { assert EndsBy(t, (ps + qs)[|ps| + k], n); }
    }
  }

  lemma EndUnder(t: Ty, i: nat, ps: seq<Path>, n: int)
    ensures AllEndBy(t, Under([i], ps), n) <==>
            ps == [] || (Steps(t, i) && AllEndBy(Into(t, i), ps, n - StepOff(t, i)))
  {
    forall k: nat | k < |ps|
      ensures EndsBy(t, Under([i], ps)[k], n) <==> Steps(t, i) && EndsBy(Into(t, i), ps[k], n - StepOff(t, i))
    {
      AtStep(t, i, ps[k]);
    }
    if ps != [] && AllEndBy(t, Under([i], ps), n) {
      assert EndsBy(t, Under([i], ps)[0], n);
      forall k: nat | k < |ps| ensures EndsBy(Into(t, i), ps[k], n - StepOff(t, i)) {
        assert EndsBy(t, Under([i], ps)[k], n);
      }
    }
  }

  lemma {:induction false} InsideIff(a: Ty, b: Ty, n: int)
    ensures AllEndBy(b, ScalarPaths(a), n) <==> Inside(a, b, n)
    decreases a, a.Arity() + 1
  {
    if a.Scalar? {
      assert ScalarPaths(a)[0] == [];
    } else {
      InsideParts(a, b, n, a.Arity());
    }
  }

  lemma {:induction false} InsideParts(a: Ty, b: Ty, n: int, k: nat)
    requires k <= a.Arity()
    ensures AllEndBy(b, ScalarPathsBefore(a, k), n) <==> InsideBefore(a, b, n, k)
    decreases a, k
  {
    if k > 0 {
      InsideParts(a, b, n, k - 1);
      InsidePart(a, b, n, k - 1);
      InsideStep(a, b, n, k);
    }
  }

  lemma {:induction false} InsidePart(a: Ty, b: Ty, n: int, i: nat)
    requires i < a.Arity()
    ensures AllEndBy(b, Under([i], ScalarPaths(a.Elem(i))), n) <==>
            Count(a.Elem(i)) == 0 || (Steps(b, i) && Inside(a.Elem(i), Into(b, i), n - StepOff(b, i)))
    decreases a, i
  {
    EndUnder(b, i, ScalarPaths(a.Elem(i)), n);
    EachScalarOnce(a.Elem(i));
    if Steps(b, i) { InsideIff(a.Elem(i), Into(b, i), n - StepOff(b, i)); }
  }

  lemma InsideStep(a: Ty, b: Ty, n: int, k: nat)
    requires 0 < k <= a.Arity()
    requires AllEndBy(b, ScalarPathsBefore(a, k - 1), n) <==> InsideBefore(a, b, n, k - 1)
    requires AllEndBy(b, Under([k - 1], ScalarPaths(a.Elem(k - 1))), n) <==>
             Count(a.Elem(k - 1)) == 0 ||
             (Steps(b, k - 1) && Inside(a.Elem(k - 1), Into(b, k - 1), n - StepOff(b, k - 1)))
    ensures AllEndBy(b, ScalarPathsBefore(a, k), n) <==> InsideBefore(a, b, n, k)
  {
    EndJoin(b, ScalarPathsBefore(a, k - 1), Under([k - 1], ScalarPaths(a.Elem(k - 1))), n);
  }

  /** The type whose scalars are listed: the pointee, or as many in a row as fit. */
  function Listed(chunkSize: nat, ty: Ty): Ty
    requires Size(ty) > 0
  {
    if Fitting(chunkSize, ty) > 1 || chunkSize == Size(ty) then Array(Fitting(chunkSize, ty), ty) else ty
  }

  lemma EmittedIsListed(chunkSize: nat, ty: Ty)
    requires Size(ty) > 0
    ensures Emitted(chunkSize, ty) == ScalarPaths(Listed(chunkSize, ty))
  {
    UnderNothing(ScalarPaths(Listed(chunkSize, ty)));
    if chunkSize == Size(ty) {
      EmittedAreLeaves(chunkSize, ty);
    }
  }

  /** The listed scalars, read as paths into the row of pointees, stay within the chunk, and all bytes
      that are padding neither of the chunk nor of a pointee are copied last. */
  predicate Fits(chunk: Ty, ty: Ty)
    requires Size(ty) > 0
  {
    var a, n := Listed(Size(chunk), ty), Width(chunk);
    Inside(a, Row(ty), n) &&
    forall o: nat :: o < n && Data(chunk, o) && Data(Array(n, ty), o) ==> Effects(a, Row(ty), o).Copied?
  }

  /** The bytes of a row of pointees. */
  lemma RowOccupied(k: nat, ty: Ty, o: int)
    requires Size(ty) > 0
    ensures Data(Array(k, ty), o) <==> RowByte(ty, o) && o < k * Size(ty)
  {
    if Data(Array(k, ty), o) { RowPointee(k, ty, o); }
    if o < k * Size(ty) {
      if i: nat :| PointeeByte(ty, i, o) { PointeeInRow(k, ty, i, o); }
    }
  }

  lemma RowPointee(k: nat, ty: Ty, o: int)
    requires Data(Array(k, ty), o)
    ensures RowByte(ty, o) && o < k * Size(ty)
  {
    var row := Array(k, ty);
    DataInside(row, o);
    var i := PartOfData(row, o, k);
    DataOccupied(ty, o - PartOff(row, i));
    assert PointeeByte(ty, i, o);
  }

  lemma PointeeInRow(k: nat, ty: Ty, i: nat, o: int)
    requires Size(ty) > 0 && o < k * Size(ty) && PointeeByte(ty, i, o)
    ensures Data(Array(k, ty), o)
  {
    var row := Array(k, ty);
    DataIff(ty, o - i * Size(ty));
    DataInside(ty, o - i * Size(ty));
    if i >= k { MulMonotone(k, i, Size(ty)); }
    assert row.Elem(0) == ty && PartOff(row, i) == i * Size(ty);
    DataOfPart(row, i, o, k);
  }

  lemma AtLeast(i: nat, s: nat)
    requires s >= 1
    ensures i <= i * s
  {
    assert i * s == i + i * (s - 1);
  }

  lemma ChunkByteIff(chunk: Ty, ty: Ty, o: int)
    requires Size(ty) > 0
    ensures ChunkByte(chunk, ty, o) <==>
            0 <= o < Width(chunk) && Data(chunk, o) && Data(Array(Width(chunk), ty), o)
  {
    DataIff(chunk, o);
    if Data(chunk, o) {
      DataWithinWidth(chunk, o);
      AtLeast(Width(chunk), Size(ty));
      RowOccupied(Width(chunk), ty, o);
    }
  }

  lemma FitsIff(chunk: Ty, ty: Ty)
    requires Size(ty) > 0
    ensures Fits(chunk, ty) <==>
            AllEndBy(Row(ty), Emitted(Size(chunk), ty), Width(chunk)) && AllCopied(chunk, ty)
  {
    var a, n := Listed(Size(chunk), ty), Width(chunk);
    EmittedIsListed(Size(chunk), ty);
    InsideIff(a, Row(ty), n);
    forall o ensures ListEffect(Row(ty), ScalarPaths(a), o) == Effects(a, Row(ty), o)
             ensures ChunkByte(chunk, ty, o) <==> 0 <= o < n && Data(chunk, o) && Data(Array(n, ty), o)
    {
      EffectsOfList(a, Row(ty), o);
      ChunkByteIff(chunk, ty, o);
    }
  }

  /** The lowering is right exactly when its paths have indices and the test holds. */
  lemma RightIff(chunk: Ty, ty: Ty)
    requires Size(ty) > 0
    ensures Right(chunk, ty) <==> !Listed(Size(chunk), ty).Scalar? && Fits(chunk, ty)
  {
    RightIsCopying(chunk, ty);
    EmittedIsListed(Size(chunk), ty);
    EmptyPathIff(Listed(Size(chunk), ty));
    FitsIff(chunk, ty);
  }

  // ----- whole pointees -----

  /** In place, the bytes that are no padding are copied and the others left alone. */
  lemma {:induction false} EffectsInPlace(a: Ty, o: int)
    ensures Effects(a, a, o) == if Data(a, o) then Copied else Untouched
    decreases a, a.Arity() + 1
  {
    if !a.Scalar? { EffectsInPlaceBefore(a, o, a.Arity()); }
  }

  lemma {:induction false} EffectsInPlaceBefore(a: Ty, o: int, n: nat)
    requires n <= a.Arity()
    ensures EffectsBefore(a, a, o, n) == if DataBefore(a, o, n) then Copied else Untouched
    decreases a, n
  {
    if n > 0 {
      EffectsInPlaceBefore(a, o, n - 1);
      PartStep(a, n - 1);
      EffectsInPlace(a.Elem(n - 1), o - PartOff(a, n - 1));
    }
  }

  lemma PartStep(a: Ty, i: nat)
    requires i < a.Arity()
    ensures Steps(a, i) && Into(a, i) == a.Elem(i) && StepOff(a, i) == PartOff(a, i)
  {
  }

  /** All bytes that are no padding are below `n`. */
  ghost predicate DataBelow(t: Ty, n: int) {
    forall o :: Data(t, o) ==> o < n
  }

  lemma DataBelowPart(t: Ty, n: int, i: nat)
    requires DataBelow(t, n) && i < t.Arity()
    ensures DataBelow(t.Elem(i), n - PartOff(t, i))
  {
    forall o | Data(t.Elem(i), o) ensures o < n - PartOff(t, i) {
      PartByte(t, i, o);
      assert Data(t, o + PartOff(t, i));
    }
  }

  lemma PartByte(t: Ty, i: nat, o: int)
    requires i < t.Arity() && Data(t.Elem(i), o)
    ensures Data(t, o + PartOff(t, i))
  {
    var x := o + PartOff(t, i);
    assert x - PartOff(t, i) == o;
    assert PartData(t, i, x);
    DataOfPart(t, i, x, t.Arity());
  }

  lemma {:induction false} InsideInPlace(a: Ty, n: int)
    requires DataBelow(a, n)
    ensures Inside(a, a, n)
    decreases a, a.Arity() + 1
  {
    if a.Scalar? {
      WidthInside(a);
      assert Data(a, Width(a) - 1);
    } else {
      InsideInPlaceBefore(a, n, a.Arity());
    }
  }

  lemma {:induction false} InsideInPlaceBefore(a: Ty, n: int, k: nat)
    requires DataBelow(a, n) && k <= a.Arity()
    ensures InsideBefore(a, a, n, k)
    decreases a, k
  {
    if k > 0 {
      InsideInPlaceBefore(a, n, k - 1);
      PartStep(a, k - 1);
      DataBelowPart(a, n, k - 1);
      InsideInPlace(a.Elem(k - 1), n - PartOff(a, k - 1));
    }
  }

  /** A row can be read past its end, so its length does not matter. */
  lemma {:induction false} AnyRow(k: nat, ty: Ty, o: int, n: int, i: nat)
    requires i <= k
    ensures EffectsBefore(Array(k, ty), Row(ty), o, i) == EffectsBefore(Array(k, ty), Array(k, ty), o, i)
    ensures InsideBefore(Array(k, ty), Row(ty), n, i) == InsideBefore(Array(k, ty), Array(k, ty), n, i)
    decreases i
  {
    if i > 0 { AnyRow(k, ty, o, n, i - 1); }
  }

  /** With a leading index, what the lowering lists is a row of pointees, read in place. */
  lemma RowEffect(chunkSize: nat, ty: Ty, o: int)
    requires Size(ty) > 0 && (Fitting(chunkSize, ty) > 1 || chunkSize == Size(ty))
    ensures var row := Array(Fitting(chunkSize, ty), ty);
            ListEffect(Row(ty), Emitted(chunkSize, ty), o) == if Data(row, o) then Copied else Untouched
  {
    var row := Array(Fitting(chunkSize, ty), ty);
    EmittedIsListed(chunkSize, ty);
    EffectsOfList(row, Row(ty), o);
    AnyRow(Fitting(chunkSize, ty), ty, o, 0, row.Arity());
    EffectsInPlace(row, o);
  }

  lemma RowInside(chunkSize: nat, ty: Ty, n: int)
    requires Size(ty) > 0 && (Fitting(chunkSize, ty) > 1 || chunkSize == Size(ty))
    requires DataBelow(Array(Fitting(chunkSize, ty), ty), n)
    ensures [] !in Emitted(chunkSize, ty) && AllEndBy(Row(ty), Emitted(chunkSize, ty), n)
  {
    var row := Array(Fitting(chunkSize, ty), ty);
    EmittedIsListed(chunkSize, ty);
    EmptyPathIff(row);
    InsideInPlace(row, n);
    AnyRow(Fitting(chunkSize, ty), ty, 0, n, row.Arity());
    InsideIff(row, Row(ty), n);
  }

  /** For whole pointees the lowered copy moves every byte that is no padding of its pointee, and leaves
      padding and everything outside the chunk alone, even if source and destination overlap; where the
      chunk copy writes such a byte the two agree. */
  lemma LoweringIsCopy(chunk: Ty, ty: Ty, m1: Mem, m2: Mem, undef: Mem, src: int, dst: int, o: int)
    requires Size(ty) > 0 && WholePointees(Size(chunk), ty)
    ensures AllRead(ty, Emitted(Size(chunk), ty))
    ensures var b := LoweredByte(ty, m1, m2, undef, src, dst, Emitted(Size(chunk), ty), dst + o);
            b == (if RowByte(ty, o) && o < Size(chunk) then m1(src + o) else m2(dst + o)) &&
            (ChunkByte(chunk, ty, o) ==> b == CopyChunk(chunk, m1, m2, undef, src, dst, dst + o))
  {
    WholeRow(chunk, ty);
    WholeEffects(chunk, ty, o);
    InsideRead(ty, Emitted(Size(chunk), ty), Size(chunk));
    LoweredIs(ty, m1, m2, undef, src, dst, Emitted(Size(chunk), ty), o);
    ChunkCopied(chunk, m1, m2, undef, src, dst, o);
    DataIff(chunk, o);
    if Data(chunk, o) { DataInside(chunk, o); }
  }

  lemma WholeRow(chunk: Ty, ty: Ty)
    requires Size(ty) > 0 && WholePointees(Size(chunk), ty)
    ensures var k := Fitting(Size(chunk), ty);
            (k > 1 || Size(chunk) == Size(ty)) && k * Size(ty) == Size(chunk) &&
            [] !in Emitted(Size(chunk), ty) && AllEndBy(Row(ty), Emitted(Size(chunk), ty), Size(chunk))
  {
    FittingExact(Size(chunk), ty);
    var row := Array(Fitting(Size(chunk), ty), ty);
    forall o | Data(row, o) ensures o < Size(chunk) { DataInside(row, o); }
    RowInside(Size(chunk), ty, Size(chunk));
  }

  /** A chunk of whole pointees is copied rightly unless it is an integer that does not fill its own
      allocation, and the pointees have a byte where the integer has none. */
  lemma WholeIff(chunk: Ty, ty: Ty)
    requires Size(ty) > 0 && WholePointees(Size(chunk), ty)
    ensures Right(chunk, ty) <==> forall o :: RowByte(ty, o) && o < Size(chunk) ==> o < Width(chunk)
    ensures Width(chunk) == Size(chunk) ==> Right(chunk, ty)
  {
    WholeRow(chunk, ty);
    RightIsCopying(chunk, ty);
    forall o ensures WholeEffect(chunk, ty, o) { WholeEffects(chunk, ty, o); }
    if StaysInside(chunk, ty) {
      forall o | RowByte(ty, o) && o < Size(chunk) ensures o < Width(chunk) {
        assert WholeEffect(chunk, ty, o);
        if o >= Width(chunk) { OutsideUntouched(Row(ty), Emitted(Size(chunk), ty), Width(chunk), o); }
      }
    }
    if forall o :: RowByte(ty, o) && o < Size(chunk) ==> o < Width(chunk) {
      forall o | Data(Array(Fitting(Size(chunk), ty), ty), o) ensures o < Width(chunk) {
        assert WholeEffect(chunk, ty, o);
      }
      RowInside(Size(chunk), ty, Width(chunk));
      forall o | ChunkByte(chunk, ty, o) ensures ListEffect(Row(ty), Emitted(Size(chunk), ty), o).Copied? {
        assert WholeEffect(chunk, ty, o);
      }
    }
  }

  /** For whole pointees the bytes that are no padding are copied, and the chunk has no others. */
  ghost predicate WholeEffect(chunk: Ty, ty: Ty, o: int)
    requires Size(ty) > 0
  {
    ListEffect(Row(ty), Emitted(Size(chunk), ty), o) ==
      (if RowByte(ty, o) && o < Size(chunk) then Copied else Untouched) &&
    (Data(Array(Fitting(Size(chunk), ty), ty), o) <==> RowByte(ty, o) && o < Size(chunk)) &&
    (Occupied(chunk, o) ==> o < Size(chunk))
  }

  lemma WholeEffects(chunk: Ty, ty: Ty, o: int)
    requires Size(ty) > 0 && WholePointees(Size(chunk), ty)
    ensures WholeEffect(chunk, ty, o)
  {
    WholeRow(chunk, ty);
    RowEffect(Size(chunk), ty, o);
    RowOccupied(Fitting(Size(chunk), ty), ty, o);
    DataIff(chunk, o);
    if Data(chunk, o) { DataInside(chunk, o); }
  }

  /** The pointee is lowered without a leading index, and its own scalars, read with their first index
      striding over whole pointees, happen to cover the chunk. */
  predicate FitsByAccident(chunk: Ty, ty: Ty)
    requires Size(ty) > 0
  {
    Size(chunk) != Size(ty) && Fitting(Size(chunk), ty) <= 1 && !ty.Scalar? && Fits(chunk, ty)
  }

  /** A chunk loaded and stored as a scalar that fills its allocation is copied rightly exactly when it is
      a whole number of pointees, or by accident of the pointee's shape. */
  lemma WholeOrAccident(chunk: Ty, ty: Ty)
    requires Size(ty) > 0 && chunk.Scalar? && Width(chunk) == Size(chunk)
    ensures Right(chunk, ty) <==> WholePointees(Size(chunk), ty) || FitsByAccident(chunk, ty)
  {
    if WholePointees(Size(chunk), ty) {
      WholeIff(chunk, ty);
    } else if Fitting(Size(chunk), ty) > 1 {
      RestIsLost(chunk, ty);
    } else {
      BareIff(chunk, ty);
    }
  }

  lemma BareIff(chunk: Ty, ty: Ty)
    requires Size(ty) > 0 && Fitting(Size(chunk), ty) <= 1 && !WholePointees(Size(chunk), ty)
    ensures Size(chunk) != Size(ty) && (Right(chunk, ty) <==> FitsByAccident(chunk, ty))
  {
    Itself(Size(ty));
    RightIff(chunk, ty);
  }

  lemma Itself(s: nat)
    requires s > 0
    ensures s % s == 0
  {
  }

  lemma RestIsLost(chunk: Ty, ty: Ty)
    requires Size(ty) > 0 && chunk.Scalar? && Width(chunk) == Size(chunk)
    requires Fitting(Size(chunk), ty) > 1 && !WholePointees(Size(chunk), ty)
    ensures !Right(chunk, ty)
  {
    var k := Fitting(Size(chunk), ty);
    var o := k * Size(ty);
    Remainder(Size(chunk), Size(ty));
    FirstByte(ty);
    DataOccupied(ty, o - k * Size(ty));
    assert PointeeByte(ty, k, o);
    DataOccupied(chunk, o);
    assert ChunkByte(chunk, ty, o);
    RowEffect(Size(chunk), ty, o);
    RowOccupied(k, ty, o);
    RightIsCopying(chunk, ty);
  }

  lemma Remainder(n: nat, s: nat)
    requires s > 0 && n > 0 && n % s != 0
    ensures 0 <= n / s * s < n
  {
    assert n == n / s * s + n % s;
  }

  // ----- chunks that are no whole number of pointees -----

  lemma {:induction false} InsideAt(a: Ty, b: Ty, n: int, k: nat, i: nat)
    requires i < k <= a.Arity() && InsideBefore(a, b, n, k)
    ensures Count(a.Elem(i)) == 0 || (Steps(b, i) && Inside(a.Elem(i), Into(b, i), n - StepOff(b, i)))
    decreases k
  {
    if i < k - 1 { InsideAt(a, b, n, k - 1, i); }
  }

  /** A chunk smaller than its pointee is never right when a part of the pointee is a scalar: the lowering
      then moves a whole pointee. */
  lemma ShortChunkFails(chunk: Ty, ty: Ty, i: nat)
    requires Size(ty) > 0 && Size(chunk) < Size(ty) && i < ty.Arity() && ty.Elem(i).Scalar?
    ensures !Right(chunk, ty)
  {
    SmallQuotient(Size(chunk), Size(ty));
    WidthInside(chunk);
    if Inside(ty, Row(ty), Width(chunk)) { PointeeMoved(ty, Width(chunk), i); }
    RightIff(chunk, ty);
  }

  lemma PointeeMoved(ty: Ty, n: int, i: nat)
    requires Inside(ty, Row(ty), n) && i < ty.Arity() && ty.Elem(i).Scalar?
    ensures Size(ty) <= n
  {
    InsideAt(ty, Row(ty), n, ty.Arity(), i);
    assert Width(ty) <= n - i * Size(ty);
  }

  lemma SmallQuotient(n: nat, s: nat)
    requires n < s
    ensures n / s == 0
  {
  }

  lemma FloatsInStruct(n: nat)
    requires 1 <= n <= 2
    ensures var s := Struct(if n == 1 then [Scalar(FloatTy)] else [Scalar(FloatTy), Scalar(FloatTy)]);
            Size(s) == 4 * n && Align(s) == 4 && PartOff(s, 0) == 0 && (n == 2 ==> PartOff(s, 1) == 4) &&
            forall o :: Data(s, o) <==> 0 <= o < 4 * n
  {
    var f := Scalar(FloatTy);
    var s := Struct(if n == 1 then [f] else [f, f]);
    assert s.Elem(0) == f && (n == 2 ==> s.Elem(1) == f);
    assert EndOf(s, 1) == 4 && AlignBefore(s, 1) == 4;
    assert n == 2 ==> EndOf(s, 2) == 8 && AlignBefore(s, 2) == 4;
    forall o ensures Data(s, o) <==> 0 <= o < 4 * n {
      if Data(s, o) { DataInside(s, o); }
      if 0 <= o < 4 { DataOfPart(s, 0, o, n); }
      if 4 <= o < 4 * n { DataOfPart(s, 1, o, n); }
    }
  }

  /** A chunk of half a struct: the bytes of the other half are overwritten too. */
  lemma SmallChunkFails()
    ensures var s, f := Struct([Scalar(FloatTy), Scalar(FloatTy)]), Scalar(FloatTy);
            var m1: Mem, m2: Mem := x => 1, x => 0;
            Size(s) == 8 && Size(f) == 4 && AllRead(s, Emitted(4, s)) &&
            LoweredByte(s, m1, m2, m2, 0, 0, Emitted(4, s), 4) == 1 && CopyChunk(f, m1, m2, m2, 0, 0, 4) == 0
  {
    var f := Scalar(FloatTy);
    var s := Struct([f, f]);
    var m1: Mem, m2: Mem := x => 1, x => 0;
    FloatsInStruct(2);
    PairList(s, f);
    PairByte(s, f, m1, m2);
  }

  lemma PairByte(s: Ty, f: Ty, m1: Mem, m2: Mem)
    requires Size(s) == 8 && Width(f) == 4
    requires AllRead(s, Emitted(4, s)) && ListEffect(Row(s), Emitted(4, s), 4) == Copied
    ensures LoweredByte(s, m1, m2, m2, 0, 0, Emitted(4, s), 4) == m1(4)
    ensures CopyChunk(f, m1, m2, m2, 0, 0, 4) == m2(4)
  {
    LoweredIs(s, m1, m2, m2, 0, 0, Emitted(4, s), 4);
  }

  lemma PairList(s: Ty, f: Ty)
    requires f == Scalar(FloatTy) && s == Struct([f, f]) && Size(s) == 8
    requires forall o :: Data(s, o) <==> 0 <= o < 8
    ensures AllRead(s, Emitted(4, s)) && ListEffect(Row(s), Emitted(4, s), 4) == Copied
  {
    EmittedIsListed(4, s);
    EmptyPathIff(s);
    assert s.Elem(0) == f && s.Elem(1) == f;
    assert InsideBefore(s, Row(s), 16, 0) && InsideBefore(s, Row(s), 16, 1) && InsideBefore(s, Row(s), 16, 2);
    InsideIff(s, Row(s), 16);
    InsideRead(s, Emitted(4, s), 16);
    EffectsOfList(s, Row(s), 4);
    assert EffectsBefore(s, Row(s), 4, 0) == Untouched && EffectsBefore(s, Row(s), 4, 1) == MoveEffect(s, 4);
    assert EffectsBefore(s, Row(s), 4, 2) == MoveEffect(s, 4).Then(MoveEffect(s, -4));
  }

  /** An integer of three bytes has a chunk of four: the lowered copy of four bytes moves one more. */
  lemma OddChunkFails()
    ensures var chunk, bytes := Scalar(IntTy(24)), Array(4, Scalar(IntTy(8)));
            Size(chunk) == Size(bytes) == 4 && WholePointees(Size(chunk), bytes) && !Right(chunk, bytes)
  {
    var chunk, byte := Scalar(IntTy(24)), Scalar(IntTy(8));
    var bytes := Array(4, byte);
    assert IntBytes(24, 4) == 4;
    assert IntBytes(24, 2) == IntBytes(24, 4);
    assert IntBytes(24, 1) == IntBytes(24, 2);
    assert IntBytes(8, 1) == 1 && Width(byte) == 1 && Width(chunk) == 3;
    assert bytes.Elem(3) == byte && PartOff(bytes, 3) == 3 && PartData(bytes, 3, 3);
    DataOfPart(bytes, 3, 3, 4);
    DataOccupied(bytes, 3);
    assert PointeeByte(bytes, 0, 3);
    assert RowByte(bytes, 3);
    WholeIff(chunk, bytes);
  }

  /** Three floats in two structs. */
  function TwoAndOne(): Ty {
    Struct([Struct([Scalar(FloatTy), Scalar(FloatTy)]), Struct([Scalar(FloatTy)])])
  }

  lemma TwoAndOneLayout()
    ensures var t := TwoAndOne();
            var f, two, one := Scalar(FloatTy), t.fields[0], t.fields[1];
            Size(t) == 12 && PartOff(t, 0) == 0 && PartOff(t, 1) == 8 && Size(two) == 8 && Size(one) == 4 &&
            (forall o :: Data(two, o) <==> 0 <= o < 8) && (forall o :: Data(one, o) <==> 0 <= o < 4)
  {
    var t := TwoAndOne();
    FloatsInStruct(1);
    FloatsInStruct(2);
    assert t.Elem(0) == t.fields[0] && t.Elem(1) == t.fields[1];
    assert EndOf(t, 1) == 8 && EndOf(t, 2) == 12 && AlignBefore(t, 1) == 4 && AlignBefore(t, 2) == 4;
  }

  lemma AllEffects(chunk: Ty, ty: Ty)
    requires Size(ty) == 12 && Size(chunk) == Width(chunk) == 20 && !ty.Scalar?
    requires Inside(ty, Row(ty), 20) && forall o: nat :: o < 20 ==> Effects(ty, Row(ty), o) == Copied
    ensures !WholePointees(20, ty) && Right(chunk, ty)
  {
    RightIff(chunk, ty);
  }

  /** An accident: the lowering of a chunk of five floats copies the two parts of one pointee and the first
      part of the next one, which is the chunk. */
  lemma AccidentalChunk()
    ensures var ty, chunk := TwoAndOne(), Array(5, Scalar(FloatTy));
            Size(ty) == 12 && Size(chunk) == 20 && !WholePointees(20, ty) && Right(chunk, ty)
  {
    var ty, chunk := TwoAndOne(), Array(5, Scalar(FloatTy));
    TwoAndOneLayout();
    AccidentInside(20);
    forall o: nat | o < 20 ensures Effects(ty, Row(ty), o) == Copied { AccidentEffect(o); }
    AllEffects(chunk, ty);
  }

  lemma AccidentInside(n: int)
    requires n >= 20
    ensures Inside(TwoAndOne(), Row(TwoAndOne()), n)
  {
    var t := TwoAndOne();
    var f, two, one := Scalar(FloatTy), t.fields[0], t.fields[1];
    TwoAndOneLayout();
    assert two.Elem(0) == two.Elem(1) == one.Elem(0) == f && t.Elem(0) == two && t.Elem(1) == one;
    assert Inside(two, t, n) by {
      assert InsideBefore(two, t, n, 0) && InsideBefore(two, t, n, 1) && InsideBefore(two, t, n, 2);
    }
    assert Inside(one, t, n - 12) by {
      assert InsideBefore(one, t, n - 12, 0) && InsideBefore(one, t, n - 12, 1);
    }
    assert InsideBefore(t, Row(t), n, 0) && InsideBefore(t, Row(t), n, 1) && InsideBefore(t, Row(t), n, 2);
  }

  lemma AccidentEffect(o: int)
    requires 0 <= o < 20
    ensures Effects(TwoAndOne(), Row(TwoAndOne()), o) == Copied
  {
    var t := TwoAndOne();
    var f, two, one := Scalar(FloatTy), t.fields[0], t.fields[1];
    TwoAndOneLayout();
    assert two.Elem(0) == two.Elem(1) == one.Elem(0) == f && t.Elem(0) == two && t.Elem(1) == one;
    assert Effects(two, t, o) == MoveEffect(two, o).Then(MoveEffect(one, o - 8)) by {
      assert EffectsBefore(two, t, o, 0) == Untouched && EffectsBefore(two, t, o, 1) == MoveEffect(two, o);
      assert EffectsBefore(two, t, o, 2) == MoveEffect(two, o).Then(MoveEffect(one, o - 8));
    }
    assert Effects(one, t, o - 12) == MoveEffect(two, o - 12) by {
      assert EffectsBefore(one, t, o - 12, 0) == Untouched;
      assert EffectsBefore(one, t, o - 12, 1) == MoveEffect(two, o - 12);
    }
    assert EffectsBefore(t, Row(t), o, 0) == Untouched && EffectsBefore(t, Row(t), o, 1) == Effects(two, t, o);
    assert EffectsBefore(t, Row(t), o, 2) == Effects(two, t, o).Then(Effects(one, t, o - 12));
  }

  /** The same pointee as the one element of an array: now the index that leads to the next pointee leaves
      the array, and the copy is right all the same. */
  lemma BehindTheArray()
    ensures var ty, chunk := Array(1, TwoAndOne()), Array(5, Scalar(FloatTy));
            Size(ty) == 12 && [0, 1, 0] in Emitted(Size(chunk), ty) && !ValidPath(Row(ty), [0, 1, 0]) &&
            Right(chunk, ty)
  {
    var t, chunk := TwoAndOne(), Array(5, Scalar(FloatTy));
    var ty := Array(1, t);
    TwoAndOneLayout();
    BehindFits(ty, t);
    AllEffects(chunk, ty);
    BehindPath(ty, t);
  }

  lemma BehindFits(ty: Ty, t: Ty)
    requires t == TwoAndOne() && ty == Array(1, t)
    ensures Inside(ty, Row(ty), 20)
    ensures forall o: nat :: o < 20 ==> Effects(ty, Row(ty), o) == Copied
  {
    assert ty.Elem(0) == t;
    AccidentInside(20);
    assert InsideBefore(ty, Row(ty), 20, 0) && InsideBefore(ty, Row(ty), 20, 1);
    forall o: nat | o < 20 ensures Effects(ty, Row(ty), o) == Copied {
      AccidentEffect(o);
      assert EffectsBefore(ty, Row(ty), o, 0) == Untouched && EffectsBefore(ty, Row(ty), o, 1) == Effects(t, ty, o);
    }
  }

  lemma BehindPath(ty: Ty, t: Ty)
    requires t == TwoAndOne() && ty == Array(1, t) && Size(ty) == 12
    ensures [0, 1, 0] in Emitted(20, ty) && !ValidPath(Row(ty), [0, 1, 0])
  {
    var one := t.fields[1];
    assert one.Elem(0) == Scalar(FloatTy) && t.Elem(1) == one && ty.Elem(0) == t && Row(ty).Elem(0) == ty;
    assert [0][1..] == [] && ScalarPath(one, [0]);
    assert [1, 0][1..] == [0] && ScalarPath(t, [1, 0]) && !ValidPath(ty, [1, 0]);
    assert [0, 1, 0][1..] == [1, 0] && ScalarPath(ty, [0, 1, 0]) && !ValidPath(Row(ty), [0, 1, 0]);
    EmittedIsListed(20, ty);
    IsListed(ty, [0, 1, 0]);
  }

  lemma IsListed(t: Ty, p: Path)
    requires ScalarPath(t, p)
    ensures p in ScalarPaths(t)
  {
    EachScalarOnce(t);
    assert ScalarPaths(t)[Rank(t, p)] == p;
  }
}
