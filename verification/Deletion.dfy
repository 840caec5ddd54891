/** Deleting functions that are no longer used, in whatever order they are found. */
module Deletion {

  type Fun = nat

  /** A use of a function; `user` is the function whose body holds it. */
  datatype Use = Use(user: Fun, slot: nat, used: Fun)

  function UsesOf(uses: set<Use>, f: Fun): set<Use> {
    set u | u in uses && u.used == f
  }

  /** The uses that remain when a function and its body are gone. */
  function Without(uses: set<Use>, f: Fun): set<Use> {
    set u | u in uses && u.user != f
  }

  /** A list of deletions, each of a candidate that has no use left when it is deleted. */
  predicate Deletable(uses: set<Use>, candidates: set<Fun>, order: seq<Fun>)
    decreases order
  {
    order == [] ||
    (order[0] in candidates && UsesOf(uses, order[0]) == {} &&
     Deletable(Without(uses, order[0]), candidates - {order[0]}, order[1..]))
  }

  function UsesAfter(uses: set<Use>, order: seq<Fun>): set<Use> {
    set u | u in uses && u.user !in order
  }

  function Deleted(order: seq<Fun>): set<Fun> {
    set f | f in order
  }

  /** Every candidate that is left is still used. */
  predicate Stuck(uses: set<Use>, candidates: set<Fun>, order: seq<Fun>) {
    forall f | f in candidates && f !in order :: UsesOf(UsesAfter(uses, order), f) != {}
  }

  lemma {:induction false} DeletableSnoc(uses: set<Use>, candidates: set<Fun>, order: seq<Fun>, f: Fun)
    requires Deletable(uses, candidates, order) && f in candidates && f !in order
    requires UsesOf(UsesAfter(uses, order), f) == {}
    ensures Deletable(uses, candidates, order + [f])
    decreases order
  {
    if order == [] {
      assert UsesAfter(uses, []) == uses;
      assert ([] + [f])[1..] == [];
    } else {
      var g := order[0];
      assert order == [g] + order[1..];
      assert UsesAfter(Without(uses, g), order[1..]) == UsesAfter(uses, order);
      DeletableSnoc(Without(uses, g), candidates - {g}, order[1..], f);
      assert (order + [f])[1..] == order[1..] + [f];
    }
  }

  class Module {
    var functions: set<Fun>
    var uses: set<Use>

    /** No use of a function that is gone, none from a function that is gone. */
    ghost predicate Valid()
      reads this
    {
      forall u | u in uses :: u.used in functions && u.user in functions
    }

    method EraseFromParent(f: Fun)
      requires Valid() && f in functions && UsesOf(uses, f) == {}
      modifies this
      ensures Valid() && functions == old(functions) - {f} && uses == Without(old(uses), f)
    {
      assert forall u | u in uses :: u in UsesOf(uses, u.used);
      functions := functions - {f};
      uses := set u | u in uses && u.user != f;
    }

    /** Scan the candidates for one without uses, delete it, start again; stop when a scan finds
        none. */
    method DeleteFunctionsRecursively(funToRemove: set<Fun>) returns (ghost order: seq<Fun>)
      requires Valid() && funToRemove <= functions
      modifies this
      ensures Valid()
      ensures Deletable(old(uses), funToRemove, order) && Stuck(old(uses), funToRemove, order)
      ensures functions == old(functions) - Deleted(order) && uses == UsesAfter(old(uses), order)
    {
      var left := funToRemove;
      order := [];
      ghost var uses0 := uses;
      while true
        invariant Valid() && left <= functions && left == funToRemove - Deleted(order)
        invariant Deletable(uses0, funToRemove, order)
        invariant functions == old(functions) - Deleted(order) && uses == UsesAfter(uses0, order)
        decreases left
      {
        var f, found := FindUnused(left);
        if !found {
          return;
        }
        DeletableSnoc(uses0, funToRemove, order, f);
        EraseFromParent(f);
        left := left - {f};
        order := order + [f];
      }
    }

    method FindUnused(left: set<Fun>) returns (f: Fun, found: bool)
      ensures found ==> f in left && UsesOf(uses, f) == {}
      ensures !found ==> forall g | g in left :: UsesOf(uses, g) != {}
    {
      var todo := left;
      f, found := 0, false;
      while todo != {}
        invariant todo <= left
        invariant forall g | g in left - todo :: UsesOf(uses, g) != {}
        decreases todo
      {
        f :| f in todo;
        if |UsesOf(uses, f)| == 0 {
          return f, true;
        }
        todo := todo - {f};
      }
    }
  }

  /** A list of possible deletions never goes beyond a stuck one. */
  lemma {:induction false} StuckHasAll(uses: set<Use>, candidates: set<Fun>, order: seq<Fun>, stuck: seq<Fun>, k: nat)
    requires Deletable(uses, candidates, order) && Stuck(uses, candidates, stuck) && k <= |order|
    ensures forall i: nat :: i < k ==> order[i] in stuck
    decreases k
  {
    if k > 0 {
      StuckHasAll(uses, candidates, order, stuck, k - 1);
      UsersDeletedBefore(uses, candidates, order, k - 1);
      assert UsesOf(UsesAfter(uses, stuck), order[k - 1]) == {};
    }
  }

  /** When a function is deleted, all its users were deleted before. */
  lemma {:induction false} UsersDeletedBefore(uses: set<Use>, candidates: set<Fun>, order: seq<Fun>, k: nat)
    requires Deletable(uses, candidates, order) && k < |order|
    ensures order[k] in candidates
    ensures forall u | u in uses && u.used == order[k] :: exists i: nat :: i < k && order[i] == u.user
    decreases k
  {
    var g := order[0];
    if k == 0 {
      assert forall u | u in uses && u.used == g :: u in UsesOf(uses, g);
    } else {
      UsersDeletedBefore(Without(uses, g), candidates - {g}, order[1..], k - 1);
      forall u | u in uses && u.used == order[k] ensures exists i: nat :: i < k && order[i] == u.user {
        if u.user == g {
          assert order[0] == u.user;
        } else {
          assert u in Without(uses, g) && u.used == order[1..][k - 1];
          var i: nat :| i < k - 1 && order[1..][i] == u.user;
          assert order[i + 1] == u.user;
        }
      }
    }
  }

  /** Whatever the order of the scans, the same functions are deleted. */
  lemma DeletionIsUnique(uses: set<Use>, candidates: set<Fun>, a: seq<Fun>, b: seq<Fun>)
    requires Deletable(uses, candidates, a) && Stuck(uses, candidates, a)
    requires Deletable(uses, candidates, b) && Stuck(uses, candidates, b)
    ensures Deleted(a) == Deleted(b)
  {
    StuckHasAll(uses, candidates, a, b, |a|);
    StuckHasAll(uses, candidates, b, a, |b|);
  }

  /** Each candidate in the set is used by a function in the set. */
  ghost predicate Supported(uses: set<Use>, candidates: set<Fun>, s: set<Fun>) {
    forall f | f in s && f in candidates :: UsedFrom(uses, f, s)
  }

  ghost predicate UsedFrom(uses: set<Use>, f: Fun, s: set<Fun>) {
    exists u :: u in uses && u.used == f && u.user in s
  }

  lemma {:induction false} SupportedStays(uses: set<Use>, candidates: set<Fun>, order: seq<Fun>, s: set<Fun>, k: nat)
    requires Deletable(uses, candidates, order) && Supported(uses, candidates, s) && k <= |order|
    ensures forall i: nat :: i < k ==> order[i] !in s
    decreases k
  {
    if k > 0 {
      SupportedStays(uses, candidates, order, s, k - 1);
      UsersDeletedBefore(uses, candidates, order, k - 1);
      assert !UsedFrom(uses, order[k - 1], s);
    }
  }

  /** A candidate survives exactly when it belongs to a set of functions that keep each other in
      use: called from outside the candidates, or on a cycle of calls. */
  lemma SurvivesIff(uses: set<Use>, candidates: set<Fun>, order: seq<Fun>, f: Fun)
    requires Deletable(uses, candidates, order) && Stuck(uses, candidates, order) && f in candidates
    ensures f !in order <==> exists s :: Supported(uses, candidates, s) && f in s
  {
    if s :| Supported(uses, candidates, s) && f in s {
      SupportedStays(uses, candidates, order, s, |order|);
    }
    if f !in order {
      var s := (set g | g in candidates && g !in order) + set u | u in uses && u.user !in order :: u.user;
      forall g | g in s && g in candidates ensures UsedFrom(uses, g, s) {
        var u :| u in UsesOf(UsesAfter(uses, order), g);
        assert u in uses && u.used == g && u.user in s;
      }
      assert Supported(uses, candidates, s);
    }
  }
}
