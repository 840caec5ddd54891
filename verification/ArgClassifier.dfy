/** Classification of function arguments by what becomes of them, following them into the
    functions they are passed to.  Argument passing may be cyclic.
 */
module ArgClassifier {

  type Arg = nat

  /** A use of an argument: a load, an operand of a call bound to a parameter of the called
      function, which may be a wrapper, or anything else. */
  datatype ArgUse = LoadUse | CallUse(param: Arg, wrapper: bool) | OtherUse

  /** All arguments with their uses, and those that point to something that is no aggregate. */
  datatype Program = Program(uses: map<Arg, seq<ArgUse>>, scalarPointers: set<Arg>) {

    function Uses(a: Arg): seq<ArgUse> {
      if a in uses then uses[a] else []
    }

    predicate PassesTo(a: Arg, b: Arg) {
      exists i: nat :: i < |Uses(a)| && Uses(a)[i].CallUse? && Uses(a)[i].param == b
    }

    /** Only call operands. */
    predicate OnlyPassed(a: Arg) {
      forall i: nat :: i < |Uses(a)| ==> Uses(a)[i].CallUse?
    }

    /** A pointer to a scalar, only loaded or passed on, and not to a wrapper. */
    predicate OnlyLoadedOrPassed(a: Arg) {
      a in scalarPointers &&
      forall i: nat :: i < |Uses(a)| ==> Uses(a)[i].LoadUse? || (Uses(a)[i].CallUse? && !Uses(a)[i].wrapper)
    }

    predicate Ok(loads: bool, a: Arg) {
      if loads then OnlyLoadedOrPassed(a) else OnlyPassed(a)
    }

    /** A chain of arguments, each passed to the next. */
    ghost predicate Chain(c: seq<Arg>) {
      c != [] && forall i: nat :: 0 < i < |c| ==> PassesTo(c[i - 1], c[i])
    }

    /** Every argument reachable through call operands meets the local condition. */
    ghost predicate AllReachableOk(loads: bool, a: Arg) {
      forall c :: Chain(c) && c[0] == a ==> Ok(loads, c[|c| - 1])
    }

    /** The same along chains without repetitions that avoid some arguments. */
    ghost predicate AllFreshOk(loads: bool, a: Arg, avoid: set<Arg>) {
      forall c :: Chain(c) && c[0] == a && Simple(c) && Avoids(c, avoid) ==> Ok(loads, c[|c| - 1])
    }

    /** Parameters are arguments of the program. */
    ghost predicate Closed() {
      forall a, b | a in uses && PassesTo(a, b) :: b in uses
    }

    /** Only used as an operand of calls, recursively; `inspected` is a copy in every call. */
    method UsedByArgsOnly(a: Arg, inspected: set<Arg>) returns (r: bool)
      requires Closed() && a in uses
      ensures r <==> AllFreshOk(false, a, inspected)
      decreases uses.Keys - inspected
    {
      if a in inspected {
        return true;
      }
      var inner := inspected + {a};
      FreshUnfolds(false, a, inspected);
      for i := 0 to |Uses(a)|
        invariant forall j: nat :: j < i ==> UseOk(false, a, inner, j)
      {
        var use := Uses(a)[i];
        if use.CallUse? {
          assert PassesTo(a, use.param);
          var ok := UsedByArgsOnly(use.param, inner);
          if !ok {
            assert !UseOk(false, a, inner, i);
            return false;
          }
        } else {
          assert !UseOk(false, a, inner, i);
          return false;
        }
      }
      return true;
    }

    /** A pointer to a scalar that is only loaded, or passed on to such arguments. */
    method LoadedOnly(a: Arg, inspected: set<Arg>) returns (r: bool)
      requires Closed() && a in uses
      ensures r <==> AllFreshOk(true, a, inspected)
      decreases uses.Keys - inspected
    {
      if a in inspected {
        return true;
      }
      var inner := inspected + {a};
      FreshUnfolds(true, a, inspected);
      if a !in scalarPointers {
        return false;
      }
      for i := 0 to |Uses(a)|
        invariant forall j: nat :: j < i ==> UseOk(true, a, inner, j)
      {
        var use := Uses(a)[i];
        if use.CallUse? {
          if use.wrapper {
            assert !UseOk(true, a, inner, i);
            return false;
          }
          assert PassesTo(a, use.param);
          var ok := LoadedOnly(use.param, inner);
          if !ok {
            assert !UseOk(true, a, inner, i);
            return false;
          }
        } else if !use.LoadUse? {
          assert !UseOk(true, a, inner, i);
          return false;
        }
      }
      return true;
    }

    ghost predicate UseOk(loads: bool, a: Arg, inner: set<Arg>, j: nat)
      requires j < |Uses(a)|
    {
      var use := Uses(a)[j];
      if use.CallUse? then (loads ==> !use.wrapper) && AllFreshOk(loads, use.param, inner)
      else loads && use.LoadUse?
    }

    /** The recursion: the condition holds from an argument exactly when it holds there and from
        everything it is passed to, with the argument itself avoided from then on. */
    lemma FreshUnfolds(loads: bool, a: Arg, avoid: set<Arg>)
      requires a !in avoid
      ensures AllFreshOk(loads, a, avoid) <==>
              (loads ==> a in scalarPointers) &&
              forall j: nat :: j < |Uses(a)| ==> UseOk(loads, a, avoid + {a}, j)
    {
      var inner := avoid + {a};
      if AllFreshOk(loads, a, avoid) {
        assert Chain([a]) && [a][|[a]| - 1] == a;
        forall j: nat | j < |Uses(a)| ensures UseOk(loads, a, inner, j) {
          if Uses(a)[j].CallUse? {
            var b := Uses(a)[j].param;
            assert PassesTo(a, b);
            forall c | Chain(c) && c[0] == b && Simple(c) && Avoids(c, inner) ensures Ok(loads, c[|c| - 1]) {
              ChainCons(a, c, avoid);
            }
          }
        }
      }
      if (loads ==> a in scalarPointers) && forall j: nat :: j < |Uses(a)| ==> UseOk(loads, a, inner, j) {
        forall c | Chain(c) && c[0] == a && Simple(c) && Avoids(c, avoid) ensures Ok(loads, c[|c| - 1]) {
          if |c| > 1 {
            ChainTail(c, avoid);
            var j: nat :| j < |Uses(a)| && Uses(a)[j].CallUse? && Uses(a)[j].param == c[1];
            assert UseOk(loads, a, inner, j);
            assert c[1..][|c[1..]| - 1] == c[|c| - 1];
          } else {
            forall j: nat | j < |Uses(a)| ensures Uses(a)[j].CallUse? || (loads && Uses(a)[j].LoadUse?)
              ensures loads && Uses(a)[j].CallUse? ==> !Uses(a)[j].wrapper
            {
              assert UseOk(loads, a, inner, j);
            }
          }
        }
      }
    }

    lemma ChainCons(a: Arg, c: seq<Arg>, avoid: set<Arg>)
      requires Chain(c) && PassesTo(a, c[0]) && Simple(c) && Avoids(c, avoid + {a}) && a !in avoid
      ensures Chain([a] + c) && Simple([a] + c) && Avoids([a] + c, avoid)
      ensures ([a] + c)[|[a] + c| - 1] == c[|c| - 1]
    {
    }

    lemma ChainTail(c: seq<Arg>, avoid: set<Arg>)
      requires Chain(c) && |c| > 1 && Simple(c) && Avoids(c, avoid)
      ensures Chain(c[1..]) && Simple(c[1..]) && Avoids(c[1..], avoid + {c[0]})
      ensures PassesTo(c[0], c[1])
    {
    }

    /** Any chain can be cut down to one without repetitions between the same arguments. */
    lemma {:induction false} Shorten(c: seq<Arg>) returns (s: seq<Arg>)
      requires Chain(c)
      ensures Chain(s) && Simple(s) && s[0] == c[0] && s[|s| - 1] == c[|c| - 1]
      decreases |c|
    {
      if Simple(c) {
        s := c;
      } else {
        var i: nat, j: nat :| i < j < |c| && c[i] == c[j];
        var cut := c[..i + 1] + c[j + 1..];
        assert Chain(cut);
        s := Shorten(cut);
      }
    }

    /** Although every path carries its own copy of the visited set, the answer from the empty
        set is about all reachable arguments. */
    lemma FreshIsReachable(loads: bool, a: Arg)
      ensures AllFreshOk(loads, a, {}) <==> AllReachableOk(loads, a)
    {
      if AllFreshOk(loads, a, {}) {
        forall c | Chain(c) && c[0] == a ensures Ok(loads, c[|c| - 1]) {
          var s := Shorten(c);
        }
      }
    }

    method UsedByArgsOnlyWrapper(a: Arg) returns (r: bool)
      requires Closed() && a in uses
      ensures r <==> AllReachableOk(false, a)
    {
      FreshIsReachable(false, a);
      r := UsedByArgsOnly(a, {});
    }

    method LoadedOnlyWrapper(a: Arg) returns (r: bool)
      requires Closed() && a in uses
      ensures r <==> AllReachableOk(true, a)
    {
      FreshIsReachable(true, a);
      r := LoadedOnly(a, {});
    }
  }

  ghost predicate Simple(c: seq<Arg>) {
    forall i: nat, j: nat :: i < j < |c| ==> c[i] != c[j]
  }

  ghost predicate Avoids(c: seq<Arg>, avoid: set<Arg>) {
    forall i: nat :: i < |c| ==> c[i] !in avoid
  }
}
