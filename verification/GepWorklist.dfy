/** The worklist that makes all constant address computations of a function explicit. */
module GepWorklist {
  import opened GepExplicit

  type OpUse = (InstId, nat)

  // ----- nesting depth -----

  /** Nesting depth of constant address computations. */
  function Depth(c: Const): nat {
    match c
    case ConstGep(ptr, _) => 1 + Depth(ptr)
    case _ => 0
  }

  function DepthOfOp(op: Operand): nat {
    if op.Constant? then Depth(op.c) else 0
  }

  function DepthOfOps(ops: seq<Operand>): nat {
    if ops == [] then 0 else DepthOfOps(ops[..|ops| - 1]) + DepthOfOp(ops[|ops| - 1])
  }

  /** Nesting depth of all operands of some instructions. */
  function DepthOf(f: Func, ids: seq<InstId>): nat {
    if ids == [] then 0
    else
      var id := ids[|ids| - 1];
      DepthOf(f, ids[..|ids| - 1]) + if id in f.insts then DepthOfOps(f.insts[id].ops) else 0
  }

  /** The instructions of the first `l` blocks. */
  function Flat(blocks: seq<seq<InstId>>, l: nat): seq<InstId>
    requires l <= |blocks|
  {
    if l == 0 then [] else Flat(blocks, l - 1) + blocks[l - 1]
  }

  /** Nesting depth of a whole function. */
  function DepthOfFunc(f: Func): nat {
    DepthOf(f, Flat(f.blocks, |f.blocks|))
  }

  function Sum(ds: seq<nat>): nat {
    if ds == [] then 0 else ds[0] + Sum(ds[1..])
  }

  lemma {:induction false} SumConcat(a: seq<nat>, b: seq<nat>)
    ensures Sum(a + b) == Sum(a) + Sum(b)
    decreases a
  {
    if a == [] {
      assert a + b == b;
    } else {
      SumConcat(a[1..], b);
      assert (a + b)[1..] == a[1..] + b;
    }
  }

  function DepthAt(f: Func, u: OpUse): nat {
    if u.0 in f.insts && u.1 < |f.insts[u.0].ops| then DepthOfOp(f.insts[u.0].ops[u.1]) else 0
  }

  function Depths(f: Func, queue: seq<OpUse>): (r: seq<nat>)
    ensures |r| == |queue|
    ensures forall i {:trigger r[i]} :: 0 <= i < |r| ==> r[i] == DepthAt(f, queue[i])
  {
    seq(|queue|, i requires 0 <= i < |queue| => DepthAt(f, queue[i]))
  }

  lemma DepthsConcat(f: Func, a: seq<OpUse>, b: seq<OpUse>)
    ensures Sum(Depths(f, a + b)) == Sum(Depths(f, a)) + Sum(Depths(f, b))
  {
    SumConcat(Depths(f, a), Depths(f, b));
    assert Depths(f, a + b) == Depths(f, a) + Depths(f, b);
  }

  // ----- what waits -----

  ghost predicate AllConvertible(f: Func, queue: seq<OpUse>) {
    forall u | u in queue :: Convertible(f, u.0, u.1)
  }

  predicate NoUseTwice(queue: seq<OpUse>) {
    forall i: nat, j: nat :: i < j < |queue| ==> queue[i] != queue[j]
  }

  /** The waiting uses are all operands that are constant address computations, each once. */
  ghost predicate Waiting(f: Func, queue: seq<OpUse>) {
    AllConvertible(f, queue) && NoUseTwice(queue) && forall u: OpUse | Convertible(f, u.0, u.1) :: u in queue
  }

  /** No operand of an instruction is a constant address computation. */
  ghost predicate NothingNested(f: Func) {
    forall id, k: nat :: !Convertible(f, id, k)
  }

  lemma NoneWaiting(f: Func)
    requires Waiting(f, [])
    ensures NothingNested(f)
  {
    forall id, k: nat ensures !Convertible(f, id, k) {
      var u: OpUse := (id, k);
      assert Convertible(f, u.0, u.1) ==> u in [];
    }
  }

  lemma SomeWaiting(f: Func, queue: seq<OpUse>)
    requires Waiting(f, queue) && queue != []
    ensures Convertible(f, queue[0].0, queue[0].1)
  {
    assert queue[0] in queue;
  }

  /** What waits after the first waiting use is converted. */
  function NextQueue(f: Func, next: InstId, queue: seq<OpUse>): seq<OpUse>
    requires queue != [] && Convertible(f, queue[0].0, queue[0].1)
  {
    queue[1..] + if f.insts[queue[0].0].ops[queue[0].1].c.ptr.ConstGep? then [(next, 0)] else []
  }

  lemma SameOperand(j: Job, u: OpUse)
    requires j.Ready() && j.next !in j.f.insts && u != (j.id, j.k) && u.0 != j.next
    ensures DepthAt(j.Out(), u) == DepthAt(j.f, u)
    ensures Convertible(j.Out(), u.0, u.1) <==> Convertible(j.f, u.0, u.1)
  {
  }

  lemma NewOperands(j: Job)
    requires j.Ready() && j.next !in j.f.insts
    ensures !Convertible(j.Out(), j.id, j.k) && (forall m: nat :: m > 0 ==> !Convertible(j.Out(), j.next, m))
    ensures Convertible(j.Out(), j.next, 0) <==> j.f.insts[j.id].ops[j.k].c.ptr.ConstGep?
    ensures DepthAt(j.Out(), (j.next, 0)) + 1 == DepthAt(j.f, (j.id, j.k))
  {
  }

  lemma NextWaiting(j: Job, queue: seq<OpUse>)
    requires j.Ready() && j.next !in j.f.insts && queue != [] && Waiting(j.f, queue) && queue[0] == (j.id, j.k)
    ensures Waiting(j.Out(), NextQueue(j.f, j.next, queue))
  {
    var queue' := NextQueue(j.f, j.next, queue);
    NewOperands(j);
    assert queue == [queue[0]] + queue[1..];
    forall u | u in queue[1..] ensures Convertible(j.Out(), u.0, u.1) && u.0 != j.next {
      SameOperand(j, u);
    }
    forall u: OpUse | Convertible(j.Out(), u.0, u.1) ensures u in queue' {
      if u.0 != j.next { SameOperand(j, u); }
    }
  }

  lemma NextDepths(j: Job, queue: seq<OpUse>)
    requires j.Ready() && j.next !in j.f.insts && queue != [] && AllConvertible(j.f, queue) && NoUseTwice(queue)
    requires queue[0] == (j.id, j.k)
    ensures Sum(Depths(j.f, queue)) == Sum(Depths(j.Out(), NextQueue(j.f, j.next, queue))) + 1
  {
    var rest := queue[1..];
    NewOperands(j);
    forall i | 0 <= i < |rest| ensures DepthAt(j.Out(), rest[i]) == DepthAt(j.f, rest[i]) {
      assert rest[i] == queue[i + 1] && rest[i] != queue[0] && rest[i] in queue;
      SameOperand(j, rest[i]);
    }
    assert Depths(j.Out(), rest) == Depths(j.f, queue)[1..];
    if j.f.insts[j.id].ops[j.k].c.ptr.ConstGep? {
      DepthsConcat(j.Out(), rest, [(j.next, 0)]);
      assert Depths(j.Out(), [(j.next, 0)]) == [DepthAt(j.Out(), (j.next, 0))];
      assert Sum([DepthAt(j.Out(), (j.next, 0))]) == DepthAt(j.Out(), (j.next, 0));
    } else {
      assert NextQueue(j.f, j.next, queue) == rest;
    }
  }

  // ----- collecting the uses -----

  /** The uses among the first `k` operands of an instruction. */
  function NestedOps(id: InstId, ops: seq<Operand>, k: nat): seq<OpUse>
    requires k <= |ops|
  {
    if k == 0 then []
    else NestedOps(id, ops, k - 1) + if ops[k - 1].Constant? && ops[k - 1].c.ConstGep? then [(id, k - 1)] else []
  }

  lemma {:induction false} NestedMembers(id: InstId, ops: seq<Operand>, k: nat)
    requires k <= |ops|
    ensures forall u: OpUse :: u in NestedOps(id, ops, k) <==>
              u.0 == id && u.1 < k && ops[u.1].Constant? && ops[u.1].c.ConstGep?
    decreases k
  {
    if k > 0 { NestedMembers(id, ops, k - 1); }
  }

  lemma {:induction false} NestedOnce(id: InstId, ops: seq<Operand>, k: nat)
    requires k <= |ops|
    ensures NoUseTwice(NestedOps(id, ops, k))
    decreases k
  {
    if k > 0 {
      NestedOnce(id, ops, k - 1);
      NestedMembers(id, ops, k - 1);
    }
  }

  lemma {:induction false} NestedDepths(f: Func, id: InstId, k: nat)
    requires id in f.insts && k <= |f.insts[id].ops|
    ensures Sum(Depths(f, NestedOps(id, f.insts[id].ops, k))) == DepthOfOps(f.insts[id].ops[..k])
    decreases k
  {
    if k > 0 {
      NestedDepths(f, id, k - 1);
      var ops, u := f.insts[id].ops, (id, k - 1);
      assert ops[..k][..k - 1] == ops[..k - 1];
      assert DepthOfOps(ops[..k]) == DepthOfOps(ops[..k - 1]) + DepthOfOp(ops[k - 1]);
      if ops[k - 1].Constant? && ops[k - 1].c.ConstGep? {
        DepthsConcat(f, NestedOps(id, ops, k - 1), [u]);
        assert Depths(f, [u]) == [DepthOfOp(ops[k - 1])];
        assert Sum([DepthOfOp(ops[k - 1])]) == DepthOfOp(ops[k - 1]);
      } else {
        assert NestedOps(id, ops, k) == NestedOps(id, ops, k - 1);
      }
    }
  }

  lemma OnceConcat(a: seq<OpUse>, b: seq<OpUse>)
    requires NoUseTwice(a) && NoUseTwice(b) && forall u | u in a :: u !in b
    ensures NoUseTwice(a + b)
  {
    forall i: nat, j: nat | i < |a| && j < |b| ensures a[i] != b[j] {
      assert a[i] in a && b[j] in b;
    }
  }

  /** The uses collected from some instructions. */
  ghost predicate Collected(f: Func, queue: seq<OpUse>, done: seq<InstId>) {
    AllConvertible(f, queue) && NoUseTwice(queue) && (forall u | u in queue :: u.0 in done) &&
    forall u: OpUse | Convertible(f, u.0, u.1) && u.0 in done :: u in queue
  }

  /** Collecting the uses of one more instruction. */
  lemma CollectedInst(f: Func, queue: seq<OpUse>, done: seq<InstId>, id: InstId)
    requires Collected(f, queue, done) && id in f.insts && id !in done
    ensures var more := NestedOps(id, f.insts[id].ops, |f.insts[id].ops|);
            Collected(f, queue + more, done + [id]) &&
            Sum(Depths(f, queue + more)) == Sum(Depths(f, queue)) + DepthOfOps(f.insts[id].ops)
  {
    var ops := f.insts[id].ops;
    var more := NestedOps(id, ops, |ops|);
    NestedDepths(f, id, |ops|);
    assert ops[..|ops|] == ops;
    DepthsConcat(f, queue, more);
    NestedMembers(id, ops, |ops|);
    NestedOnce(id, ops, |ops|);
    MoreCollected(f, queue, more, done, id);
  }

  lemma MoreCollected(f: Func, queue: seq<OpUse>, more: seq<OpUse>, done: seq<InstId>, id: InstId)
    requires Collected(f, queue, done) && NoUseTwice(more) && id !in done
    requires forall u: OpUse :: u in more <==> u.0 == id && Convertible(f, u.0, u.1)
    ensures Collected(f, queue + more, done + [id])
  {
    OnceConcat(queue, more);
  }

  lemma DepthOfSnoc(f: Func, done: seq<InstId>, id: InstId)
    requires id in f.insts
    ensures DepthOf(f, done + [id]) == DepthOf(f, done) + DepthOfOps(f.insts[id].ops)
  {
    assert (done + [id])[..|done|] == done;
  }

  // ----- the scan goes through every instruction once -----

  lemma {:induction false} FlatMembers(blocks: seq<seq<InstId>>, l: nat, id: InstId)
    requires l <= |blocks|
    ensures id in Flat(blocks, l) <==> exists m: nat, q: nat :: m < l && At(blocks, id, m, q)
    decreases l
  {
    if l > 0 {
      FlatMembers(blocks, l - 1, id);
      if id in blocks[l - 1] {
        var q :| 0 <= q < |blocks[l - 1]| && blocks[l - 1][q] == id;
        assert At(blocks, id, l - 1, q);
      }
      if m: nat, q: nat :| m < l && At(blocks, id, m, q) {
        if m == l - 1 { assert blocks[l - 1][q] in blocks[l - 1]; }
      }
    }
  }

  /** What was scanned when the scan is at one place. */
  function Scanned(blocks: seq<seq<InstId>>, l: nat, p: nat): seq<InstId>
    requires l < |blocks| && p <= |blocks[l]|
  {
    Flat(blocks, l) + blocks[l][..p]
  }

  lemma NotScannedTwice(f: Func, next: InstId, l: nat, p: nat)
    requires WellFormed(f, next) && l < |f.blocks| && p < |f.blocks[l]|
    ensures f.blocks[l][p] in f.insts && f.blocks[l][p] !in Scanned(f.blocks, l, p)
  {
    var id := f.blocks[l][p];
    IdsOf(f, next, l, p);
    FlatMembers(f.blocks, l, id);
    assert At(f.blocks, id, l, p);
    forall q: nat | q < p ensures f.blocks[l][..p][q] != id {
      assert f.blocks[l][q] == id ==> At(f.blocks, id, l, q);
    }
    if m: nat, q: nat :| m < l && At(f.blocks, id, m, q) {
      assert false;
    }
  }

  lemma AllScanned(f: Func, next: InstId, queue: seq<OpUse>)
    requires WellFormed(f, next) && ScannedBlocks(f, queue, |f.blocks|)
    ensures Waiting(f, queue) && Sum(Depths(f, queue)) == DepthOfFunc(f)
  {
    forall u: OpUse | Convertible(f, u.0, u.1) ensures u in queue {
      assert Somewhere(f, u.0);
      var l: nat, p: nat :| At(f.blocks, u.0, l, p);
      FlatMembers(f.blocks, |f.blocks|, u.0);
    }
  }

  lemma NoneScanned(f: Func)
    ensures ScannedBlocks(f, [], 0)
  {
  }

  lemma ScanStep(f: Func, next: InstId, l: nat, p: nat, queue: seq<OpUse>)
    requires WellFormed(f, next) && l < |f.blocks| && p < |f.blocks[l]| && ScannedTo(f, queue, l, p)
    ensures f.blocks[l][p] in f.insts
    ensures var ops := f.insts[f.blocks[l][p]].ops;
            ScannedTo(f, queue + NestedOps(f.blocks[l][p], ops, |ops|), l, p + 1)
  {
    NotScannedTwice(f, next, l, p);
    CollectedInst(f, queue, Scanned(f.blocks, l, p), f.blocks[l][p]);
    DepthOfSnoc(f, Scanned(f.blocks, l, p), f.blocks[l][p]);
    ScannedSnoc(f.blocks, l, p);
  }

  lemma ScannedSnoc(blocks: seq<seq<InstId>>, l: nat, p: nat)
    requires l < |blocks| && p < |blocks[l]|
    ensures Scanned(blocks, l, p + 1) == Scanned(blocks, l, p) + [blocks[l][p]]
  {
    assert blocks[l][..p + 1] == blocks[l][..p] + [blocks[l][p]];
  }

  ghost predicate ScannedTo(f: Func, queue: seq<OpUse>, l: nat, p: nat)
    requires l < |f.blocks| && p <= |f.blocks[l]|
  {
    Collected(f, queue, Scanned(f.blocks, l, p)) && Sum(Depths(f, queue)) == DepthOf(f, Scanned(f.blocks, l, p))
  }

  ghost predicate ScannedBlocks(f: Func, queue: seq<OpUse>, l: nat)
    requires l <= |f.blocks|
  {
    Collected(f, queue, Flat(f.blocks, l)) && Sum(Depths(f, queue)) == DepthOf(f, Flat(f.blocks, l))
  }

  lemma BlockScan(f: Func, queue: seq<OpUse>, l: nat)
    requires l < |f.blocks|
    ensures ScannedBlocks(f, queue, l) <==> ScannedTo(f, queue, l, 0)
    ensures ScannedTo(f, queue, l, |f.blocks[l]|) <==> ScannedBlocks(f, queue, l + 1)
  {
    assert Scanned(f.blocks, l, 0) == Flat(f.blocks, l);
    assert f.blocks[l][..|f.blocks[l]|] == f.blocks[l];
  }

  // ----- what all conversions so far did -----

  /** The same run of every world, with the same values for every instruction of the function at the
      start. */
  ghost predicate Preserved(f0: Func, next0: InstId, f: Func) {
    forall w: World, n: nat {:trigger SameRun(Run(w, f0, n), Run(w, f, n), next0)} ::
      SameRun(Run(w, f0, n), Run(w, f, n), next0)
  }

  lemma PreservesMore(f0: Func, next0: InstId, j: Job)
    requires j.Valid() && j.Ready() && next0 <= j.next && Preserved(f0, next0, j.f)
    ensures Preserved(f0, next0, j.Out())
  {
    forall w: World, n: nat ensures SameRun(Run(w, f0, n), Run(w, j.Out(), n), next0) {
      ConvertPreserves(j, w, n);
      assert SameRun(Run(w, f0, n), Run(w, j.f, n), next0);
    }
  }

  /** For which use a new instruction was inserted. */
  type Origins = map<InstId, OpUse>

  /** An operand of the function at the start is as it was, or it was a constant address computation
      and is now the result of the instruction inserted for it. */
  ghost predicate Replaced(f0: Func, next0: InstId, f: Func, next: InstId, origin: Origins) {
    next0 <= next && (forall x | x in origin :: x < next) &&
    (forall id | id in f0.insts :: id < next0 && id in f.insts && SameKind(f0.insts[id], f.insts[id])) &&
    (forall id | id in f.insts && id !in f0.insts :: id >= next0 && f.insts[id].Gep?) &&
    forall id, k: nat {:trigger OpReplaced(f0, f, origin, id, k)} | id in f0.insts && k < |f0.insts[id].ops| ::
      OpReplaced(f0, f, origin, id, k)
  }

  predicate SameKind(a: Inst, b: Inst) {
    |a.ops| == |b.ops| && (a.Phi? <==> b.Phi?) && (a.Phi? ==> a.from == b.from)
  }

  predicate OpReplaced(f0: Func, f: Func, origin: Origins, id: InstId, k: nat) {
    id in f0.insts && id in f.insts && k < |f0.insts[id].ops| && k < |f.insts[id].ops| &&
    (f.insts[id].ops[k] == f0.insts[id].ops[k] ||
     (Convertible(f0, id, k) && f.insts[id].ops[k].Result? && f.insts[id].ops[k].id in origin &&
      origin[f.insts[id].ops[k].id] == (id, k)))
  }

  lemma NothingReplaced(f: Func, next: InstId)
    requires forall id | id in f.insts :: id < next
    ensures Replaced(f, next, f, next, map[])
  {
  }

  lemma ReplacesMore(f0: Func, next0: InstId, j: Job, origin: Origins)
    requires Replaced(f0, next0, j.f, j.next, origin) && j.Ready() && j.next !in j.f.insts
    ensures Replaced(f0, next0, j.Out(), j.next + 1, origin[j.next := (j.id, j.k)])
  {
    var origin' := origin[j.next := (j.id, j.k)];
    forall id, k: nat | id in f0.insts && k < |f0.insts[id].ops| ensures OpReplaced(f0, j.Out(), origin', id, k) {
      OneReplaced(f0, next0, j, origin, id, k);
    }
  }

  lemma OneReplaced(f0: Func, next0: InstId, j: Job, origin: Origins, id: InstId, k: nat)
    requires Replaced(f0, next0, j.f, j.next, origin) && j.Ready() && j.next !in j.f.insts
    requires id in f0.insts && k < |f0.insts[id].ops|
    ensures OpReplaced(f0, j.Out(), origin[j.next := (j.id, j.k)], id, k)
  {
    assert OpReplaced(f0, j.f, origin, id, k);
    assert j.Out().insts[id].ops[k] == if id == j.id && k == j.k then Result(j.next) else j.f.insts[id].ops[k];
  }

  // ----- phis -----

  /** Where a phi has several entries for one block, they are the same. */
  ghost predicate PhisOk(f: Func) {
    forall id, k: nat, l: nat {:trigger TwoEntries(f, id, k, l)} :: TwoEntries(f, id, k, l) ==>
      f.insts[id].ops[k] == f.insts[id].ops[l]
  }

  predicate TwoEntries(f: Func, id: InstId, k: nat, l: nat) {
    id in f.insts && f.insts[id].Phi? && k < l < |f.insts[id].from| && l < |f.insts[id].ops| &&
    f.insts[id].from[k] == f.insts[id].from[l]
  }

  /** Some phi has the same constant address computation twice for one block. */
  ghost predicate Twins(f: Func) {
    exists id, k: nat, l: nat :: TwoEntries(f, id, k, l) && Convertible(f, id, k)
  }

  /** Every use gets an instruction of its own, so phis stay as they must be exactly when no phi has one
      constant address computation twice for one block. */
  lemma PhisIff(f0: Func, next0: InstId, f: Func, next: InstId, origin: Origins)
    requires Replaced(f0, next0, f, next, origin) && NothingNested(f) && PhisOk(f0)
    ensures PhisOk(f) <==> !Twins(f0)
  {
    if Twins(f0) {
      var id, k: nat, l: nat :| TwoEntries(f0, id, k, l) && Convertible(f0, id, k);
      EntriesKept(f0, next0, f, next, origin, id, k, l);
      assert TwoEntries(f, id, k, l);
    } else {
      forall id, k: nat, l: nat | TwoEntries(f, id, k, l) ensures f.insts[id].ops[k] == f.insts[id].ops[l] {
        assert TwoEntries(f0, id, k, l);
        EntriesKept(f0, next0, f, next, origin, id, k, l);
      }
    }
  }

  lemma EntriesKept(f0: Func, next0: InstId, f: Func, next: InstId, origin: Origins, id: InstId, k: nat, l: nat)
    requires Replaced(f0, next0, f, next, origin) && NothingNested(f) && PhisOk(f0) && TwoEntries(f0, id, k, l)
    ensures TwoEntries(f, id, k, l)
    ensures f.insts[id].ops[k] == f.insts[id].ops[l] <==> !Convertible(f0, id, k)
  {
    assert SameKind(f0.insts[id], f.insts[id]);
    assert f0.insts[id].ops[k] == f0.insts[id].ops[l];
    assert OpReplaced(f0, f, origin, id, k) && OpReplaced(f0, f, origin, id, l);
    assert !Convertible(f, id, k) && !Convertible(f, id, l);
  }

  // ----- the pass -----

  /** The state of the worklist. */
  ghost predicate Progress(f0: Func, next0: InstId, total: nat, f: Func, next: InstId, queue: seq<OpUse>,
                           left: nat, origin: Origins) {
    WellFormed(f, next) && Waiting(f, queue) && left == Sum(Depths(f, queue)) &&
    Counts(f0, next0, f, next, total - left) && Preserved(f0, next0, f) && Replaced(f0, next0, f, next, origin)
  }

  /** That many instructions were inserted. */
  ghost predicate Counts(f0: Func, next0: InstId, f: Func, next: InstId, inserted: int) {
    next == next0 + inserted && |f.insts| == |f0.insts| + inserted
  }

  lemma ProgressStarts(f: Func, next: InstId, queue: seq<OpUse>)
    requires WellFormed(f, next) && Waiting(f, queue)
    ensures Progress(f, next, Sum(Depths(f, queue)), f, next, queue, Sum(Depths(f, queue)), map[])
  {
    NothingReplaced(f, next);
    forall w: World, n: nat ensures SameRun(Run(w, f, n), Run(w, f, n), next) {}
  }

  lemma QueueStep(j: Job, queue: seq<OpUse>, left: nat)
    requires j.Ready() && j.next !in j.f.insts && Waiting(j.f, queue) && queue != [] && queue[0] == (j.id, j.k)
    requires left == Sum(Depths(j.f, queue))
    ensures left > 0 && Waiting(j.Out(), NextQueue(j.f, j.next, queue))
    ensures left - 1 == Sum(Depths(j.Out(), NextQueue(j.f, j.next, queue)))
  {
    NextWaiting(j, queue);
    NextDepths(j, queue);
  }

  lemma CountStep(f0: Func, next0: InstId, j: Job, inserted: int)
    requires j.Ready() && j.next !in j.f.insts && Counts(f0, next0, j.f, j.next, inserted)
    ensures Counts(f0, next0, j.Out(), j.next + 1, inserted + 1)
  {
    assert j.Out().insts.Keys == j.f.insts.Keys + {j.next};
  }

  lemma ProgressStep(f0: Func, next0: InstId, total: nat, j: Job, queue: seq<OpUse>, left: nat, origin: Origins)
    requires Progress(f0, next0, total, j.f, j.next, queue, left, origin) && j.Valid()
    requires queue != [] && queue[0] == (j.id, j.k)
    ensures j.Ready() && left > 0
    ensures Progress(f0, next0, total, j.Out(), j.next + 1, NextQueue(j.f, j.next, queue), left - 1,
                     origin[j.next := (j.id, j.k)])
  {
    ValidIsReady(j);
    QueueStep(j, queue, left);
    CountStep(f0, next0, j, total - left);
    ConvertWellFormed(j);
    PreservesMore(f0, next0, j);
    ReplacesMore(f0, next0, j, origin);
  }

  /** What the pass promises: no operand is a constant address computation any more, one instruction
      was inserted for each nesting level, every run is the same, and every use has its own
      instruction. */
  ghost predicate Explicit(f0: Func, next0: InstId, f: Func, next: InstId, origin: Origins) {
    WellFormed(f, next) && NothingNested(f) && Counts(f0, next0, f, next, DepthOfFunc(f0)) &&
    Preserved(f0, next0, f) && Replaced(f0, next0, f, next, origin)
  }

  lemma ProgressEnds(f0: Func, next0: InstId, f: Func, next: InstId, origin: Origins)
    requires Progress(f0, next0, DepthOfFunc(f0), f, next, [], 0, origin)
    ensures Explicit(f0, next0, f, next, origin)
  {
    NoneWaiting(f);
  }

  class Explicitation {
    var f: Func
    var next: InstId

    constructor (f: Func, next: InstId)
      ensures this.f == f && this.next == next
    {
      this.f, this.next := f, next;
    }

    /** Append the constant address computations among the operands of one instruction. */
    method CollectOps(id: InstId, queue: seq<OpUse>) returns (queue': seq<OpUse>)
      requires id in f.insts
      ensures queue' == queue + NestedOps(id, f.insts[id].ops, |f.insts[id].ops|)
    {
      var ops := f.insts[id].ops;
      queue' := queue;
      for k := 0 to |ops|
        invariant queue' == queue + NestedOps(id, ops, k)
      {
        if ops[k].Constant? && ops[k].c.ConstGep? {
          queue' := queue' + [(id, k)];
        }
      }
    }

    method CollectBlock(l: nat, queue: seq<OpUse>) returns (queue': seq<OpUse>)
      requires WellFormed(f, next) && l < |f.blocks| && ScannedBlocks(f, queue, l)
      ensures ScannedBlocks(f, queue', l + 1)
    {
      BlockScan(f, queue, l);
      queue' := queue;
      for p := 0 to |f.blocks[l]|
        invariant ScannedTo(f, queue', l, p)
      {
        ScanStep(f, next, l, p, queue');
        queue' := CollectOps(f.blocks[l][p], queue');
      }
      BlockScan(f, queue', l);
    }

    /** Scan all operands of all instructions of all blocks. */
    method CollectUses() returns (queue: seq<OpUse>)
      requires WellFormed(f, next)
      ensures Waiting(f, queue) && Sum(Depths(f, queue)) == DepthOfFunc(f)
    {
      queue := [];
      NoneScanned(f);
      for l := 0 to |f.blocks|
        invariant ScannedBlocks(f, queue, l)
      {
        queue := CollectBlock(l, queue);
      }
      AllScanned(f, next, queue);
    }

    /** The place of an instruction. */
    method Find(id: InstId) returns (l: nat, p: nat)
      requires WellFormed(f, next) && id in f.insts
      ensures At(f.blocks, id, l, p)
    {
      assert Somewhere(f, id);
      ghost var m: nat, q: nat :| At(f.blocks, id, m, q);
      l := 0;
      while id !in f.blocks[l]
        invariant l <= m
        decreases m - l
      {
        l := l + 1;
      }
      ghost var r: nat :| r < |f.blocks[l]| && f.blocks[l][r] == id;
      p := 0;
      while f.blocks[l][p] != id
        invariant p <= r
        decreases r - p
      {
        p := p + 1;
      }
    }

    /** In front of the user, or of the end of the block a phi's operand comes from. */
    method FindInsertionPoint(id: InstId, k: nat) returns (l: nat, p: nat)
      requires WellFormed(f, next) && Convertible(f, id, k)
      ensures InsertionPoint(f, id, k, l, p)
    {
      match f.insts[id] {
        case Phi(from, ops) =>
          assert SoundInst(f, f.insts[id], next);
          l := from[k];
          assert ShapedBlock(f, f.blocks[l]);
          p := |f.blocks[l]| - 1;
        case _ =>
          l, p := Find(id);
      }
    }

    /** Replace constant address computations by instructions until no operand is one. */
    method GepExplicitation() returns (changed: bool, ghost origin: Origins)
      requires WellFormed(f, next)
      modifies this
      ensures Explicit(old(f), old(next), f, next, origin)
      ensures changed <==> !NothingNested(old(f))
    {
      var queue := CollectUses();
      changed := queue != [];
      if changed { SomeWaiting(f, queue); } else { NoneWaiting(f); }
      origin := ConvertAll(queue);
    }

    method ConvertAll(uses: seq<OpUse>) returns (ghost origin: Origins)
      requires WellFormed(f, next) && Waiting(f, uses) && Sum(Depths(f, uses)) == DepthOfFunc(f)
      modifies this
      ensures Explicit(old(f), old(next), f, next, origin)
    {
      ghost var f0, next0, total := f, next, DepthOfFunc(f);
      ProgressStarts(f, next, uses);
      var queue := uses;
      ghost var left: nat := total;
      origin := map[];
      while queue != []
        invariant Progress(f0, next0, total, f, next, queue, left, origin)
        decreases left
      {
        queue, left, origin := ConvertFirst(queue, f0, next0, total, left, origin);
      }
      ProgressEnds(f0, next0, f, next, origin);
    }

    /** Convert the first waiting use. */
    method ConvertFirst(queue: seq<OpUse>, ghost f0: Func, ghost next0: InstId, ghost total: nat, ghost left: nat,
                        ghost origin: Origins)
      returns (queue': seq<OpUse>, ghost left': nat, ghost origin': Origins)
      requires queue != [] && Progress(f0, next0, total, f, next, queue, left, origin)
      modifies this
      ensures left' < left && Progress(f0, next0, total, f, next, queue', left', origin')
    {
      var (id, k) := queue[0];
      SomeWaiting(f, queue);
      var l, p := FindInsertionPoint(id, k);
      var j := Job(f, next, id, k, l, p);
      ProgressStep(f0, next0, total, j, queue, left, origin);
      queue', left', origin' := NextQueue(j.f, j.next, queue), left - 1, origin[j.next := (j.id, j.k)];
      f, next := j.Out(), j.next + 1;
    }
  }
}
