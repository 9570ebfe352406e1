/**
 * The backtracking driver of cp_solver/search.py on the variables' states:
 * variable choice by smallest domain, the undo of a propagator log, and the
 * recursion itself, exactly as the code behaves, including that it never
 * tries another value once a propagation succeeds, that it undoes a log by
 * looking each logged position up as a value, and that an initial wipeout
 * keeps the initial prunings.
 */
module SearchModel {
  import opened Wrappers
  import opened Domains
  import opened Constraints
  import opened Propagators

  // ---------------------------------------------------------------------------
  // Counting unassigned variables (the measure of the recursion)
  // ---------------------------------------------------------------------------

  function UnassignedCount(S: seq<Domain>): (n: nat)
    ensures n <= |S|
  {
    if S == [] then 0
    else UnassignedCount(S[..|S| - 1]) + (if S[|S| - 1].IsAssigned() then 0 else 1)
  }

  /** Two states with the same values, assignments and mask lengths. */
  predicate SameShape(S: seq<Domain>, T: seq<Domain>) {
    |T| == |S| &&
    forall k :: 0 <= k < |S| ==>
      T[k].values == S[k].values && T[k].assignment == S[k].assignment && |T[k].visible| == |S[k].visible|
  }

  lemma {:induction false} SameShapeSameCount(S: seq<Domain>, T: seq<Domain>)
    requires |S| == |T| && forall k :: 0 <= k < |S| ==> T[k].assignment == S[k].assignment
    ensures UnassignedCount(T) == UnassignedCount(S)
  {
    if S != [] {
      SameShapeSameCount(S[..|S| - 1], T[..|T| - 1]);
    }
  }

  /** Assigning an unassigned variable leaves one fewer unassigned. */
  lemma {:induction false} AssignCounts(S: seq<Domain>, x: nat, v: int)
    requires x < |S| && !S[x].IsAssigned()
    ensures UnassignedCount(S[x := S[x].Assign(v)]) == UnassignedCount(S) - 1
  {
    var T := S[x := S[x].Assign(v)];
    if x < |S| - 1 {
      AssignCounts(S[..|S| - 1], x, v);
      assert T[..|T| - 1] == S[..|S| - 1][x := S[x].Assign(v)];
    } else {
      SameShapeSameCount(S[..|S| - 1], T[..|T| - 1]);
    }
  }

  lemma {:induction false} NoneUnassignedCount(S: seq<Domain>)
    ensures UnassignedCount(S) == 0 <==> forall k :: 0 <= k < |S| ==> S[k].IsAssigned()
  {
    if S != [] {
      NoneUnassignedCount(S[..|S| - 1]);
    }
  }

  // ---------------------------------------------------------------------------
  // get_min_domain_variable (cp_solver/search.py:10-21)
  // ---------------------------------------------------------------------------

  /**
   * `i` is the choice among the first `n` variables: unassigned, of smallest
   * size among the unassigned ones, and the first such.
   */
  ghost predicate IsMinDomain(S: seq<Domain>, n: nat, i: nat)
    requires n <= |S|
  {
    i < n && !S[i].IsAssigned() &&
    (forall k :: 0 <= k < n && !S[k].IsAssigned() ==> S[i].Size() <= S[k].Size()) &&
    (forall k :: 0 <= k < i && !S[k].IsAssigned() ==> S[i].Size() < S[k].Size())
  }

  /** The choice the loop has made after the first `n` variables; None while none was unassigned. */
  function MinDomainUpTo(S: seq<Domain>, n: nat): (r: Option<nat>)
    requires n <= |S|
    ensures r.None? <==> forall k :: 0 <= k < n ==> S[k].IsAssigned()
    ensures r.Some? ==> IsMinDomain(S, n, r.value)
  {
    if n == 0 then None
    else
      var prev := MinDomainUpTo(S, n - 1);
      if !S[n - 1].IsAssigned() && (prev.None? || S[n - 1].Size() < S[prev.value].Size()) then Some(n - 1)
      else prev
  }

  /** One more step of that loop: variable `i` replaces the choice so far when it is unassigned and strictly smaller. */
  lemma MinDomainStep(S: seq<Domain>, i: nat, prev: Option<nat>)
    requires i < |S| && prev == MinDomainUpTo(S, i)
    ensures prev.Some? ==> prev.value < |S|
    ensures MinDomainUpTo(S, i + 1) ==
      if !S[i].IsAssigned() && (prev.None? || S[i].Size() < S[prev.value].Size()) then Some(i) else prev
  {
  }

  /** `get_min_domain_variable`: the index it returns, None for `(None, None)`. */
  function MinDomain(S: seq<Domain>): (r: Option<nat>)
    ensures r.None? <==> forall k :: 0 <= k < |S| ==> S[k].IsAssigned()
    ensures r.Some? ==> IsMinDomain(S, |S|, r.value)
  {
    MinDomainUpTo(S, |S|)
  }

  /** At most one index meets the choice rule, so the rule alone fixes the variable chosen. */
  lemma MinDomainUnique(S: seq<Domain>, n: nat, i: nat, j: nat)
    requires n <= |S| && IsMinDomain(S, n, i) && IsMinDomain(S, n, j)
    ensures i == j
  {
  }

  // ---------------------------------------------------------------------------
  // _restore_all_domains (cp_solver/search.py:42-46)
  // ---------------------------------------------------------------------------

  /** Every variable unassigned and its domain restored. */
  function RestoreAll(S: seq<Domain>): (T: seq<Domain>)
    ensures |T| == |S|
  {
    seq(|S|, k requires 0 <= k < |S| => S[k].Unassign().Restored())
  }

  /**
   * After restoring, no variable is assigned and each shows and iterates all
   * of its values in order; the values themselves are unchanged.
   */
  lemma RestoreAllSpec(S: seq<Domain>)
    requires AllValid(S)
    ensures AllValid(RestoreAll(S)) && UnassignedCount(RestoreAll(S)) == |S|
    ensures forall k :: 0 <= k < |S| ==>
      var d := RestoreAll(S)[k];
      d.values == S[k].values && !d.IsAssigned() &&
      (forall j :: 0 <= j < |d.visible| ==> d.visible[j]) &&
      d.Size() == |d.values| && d.Iteration() == d.values
  {
    var T := RestoreAll(S);
    forall k | 0 <= k < |S| ensures T[k].Size() == |T[k].values| && T[k].Iteration() == T[k].values {
      RestoreShowsAll(S[k].Unassign());
    }
    AllUnassignedCount(T);
  }

  lemma {:induction false} AllUnassignedCount(S: seq<Domain>)
    requires forall k :: 0 <= k < |S| ==> !S[k].IsAssigned()
    ensures UnassignedCount(S) == |S|
  {
    if S != [] {
      AllUnassignedCount(S[..|S| - 1]);
    }
  }

  // ---------------------------------------------------------------------------
  // _restore_pruning (cp_solver/search.py:48-51)
  // ---------------------------------------------------------------------------

  /** Every logged entry names a variable and one of its positions. */
  predicate LogFits(S: seq<Domain>, log: seq<Pruned>) {
    forall k :: 0 <= k < |log| ==> log[k].0 < |S| && log[k].1 < |S[log[k].0].visible|
  }

  /**
   * `_restore_pruning`: for each logged `(x, i)`, `prune(i, unprune=True)` on
   * variable `x`, which looks `i` up as a value. False with the state reached
   * so far where that lookup raises ValueError.
   */
  function UndoByValue(S: seq<Domain>, log: seq<Pruned>): (r: (bool, seq<Domain>))
    requires AllValid(S) && forall k :: 0 <= k < |log| ==> log[k].0 < |S|
    ensures SameShape(S, r.1) && AllValid(r.1)
    decreases |log|
  {
    if log == [] then (true, S)
    else
      var x := log[0].0;
      match S[x].PruneValue(log[0].1, true)
      case None => (false, S)
      case Some(d) => UndoByValue(S[x := d], log[1..])
  }

  /** Every position of every variable holds its own index as value, as in a domain `range(n)`. */
  predicate IdentityValues(S: seq<Domain>) {
    forall x, j :: 0 <= x < |S| && 0 <= j < |S[x].values| ==> S[x].values[j] == j
  }

  /** With identity values, looking a position up as a value finds that position. */
  lemma IdentityIndex(d: Domain, j: nat)
    requires d.Valid() && j < |d.values| && forall i :: 0 <= i < |d.values| ==> d.values[i] == i
    ensures d.PruneValue(j, true) == Some(d.SetVisible(j, true))
  {
    assert d.values[j] == j;
    var r := FirstIndex(d.values, j);
    assert r.Some?;
    assert d.values[r.value] == r.value;
  }

  /** With identity values, the undo succeeds and shows exactly the logged positions in addition. */
  lemma {:induction false} UndoShowsLogged(T: seq<Domain>, log: seq<Pruned>)
    requires AllValid(T) && IdentityValues(T) && LogFits(T, log)
    ensures UndoByValue(T, log).0
    ensures forall x, j :: 0 <= x < |T| && 0 <= j < |T[x].visible| ==>
      (UndoByValue(T, log).1[x].visible[j] <==> T[x].visible[j] || (x, j) in log)
    decreases |log|
  {
    if log != [] {
      var (x, i) := log[0];
      IdentityIndex(T[x], i);
      var T' := T[x := T[x].SetVisible(i, true)];
      assert LogFits(T', log[1..]) by {
        forall k | 0 <= k < |log[1..]| ensures log[1..][k].0 < |T'| && log[1..][k].1 < |T'[log[1..][k].0].visible| {
          assert log[1..][k] == log[k + 1];
        }
      }
      UndoShowsLogged(T', log[1..]);
      assert UndoByValue(T, log) == UndoByValue(T', log[1..]);
      ShowsOneMore(T, T', log, UndoByValue(T', log[1..]).1);
    }
  }

  /** Showing the first logged position, then the rest, shows every logged position. */
  lemma ShowsOneMore(T: seq<Domain>, T': seq<Domain>, log: seq<Pruned>, R: seq<Domain>)
    requires log != [] && log[0].0 < |T| && log[0].1 < |T[log[0].0].visible|
    requires T' == T[log[0].0 := T[log[0].0].SetVisible(log[0].1, true)] && SameShape(T, R)
    requires forall y, j :: 0 <= y < |T'| && 0 <= j < |T'[y].visible| ==>
      (R[y].visible[j] <==> T'[y].visible[j] || (y, j) in log[1..])
    ensures forall y, j :: 0 <= y < |T| && 0 <= j < |T[y].visible| ==>
      (R[y].visible[j] <==> T[y].visible[j] || (y, j) in log)
  {
    forall y, j | 0 <= y < |T| && 0 <= j < |T[y].visible| ensures R[y].visible[j] <==> T[y].visible[j] || (y, j) in log {
      assert T'[y].visible[j] <==> T[y].visible[j] || (y, j) == log[0];
      assert (y, j) in log <==> (y, j) == log[0] || (y, j) in log[1..] by {
        assert log == [log[0]] + log[1..];
      }
    }
  }

  /**
   * Without identity values the undo can miss: in a domain `[1, 0]` whose
   * position 0 was pruned, undoing `(x, 0)` looks up the value 0, shows
   * position 1 again and leaves position 0 hidden; in a domain `[5]` the
   * lookup of 0 raises.
   */
  lemma UndoByValueMisses()
    ensures UndoByValue([Domain([1, 0], [false, true], None)], [(0, 0)]) ==
      (true, [Domain([1, 0], [false, true], None)])
    ensures !UndoByValue([Domain([5], [false], None)], [(0, 0)]).0
  {
    assert FirstIndex([1, 0], 0) == Some(1) by {
      assert FirstIndex([0], 0) == Some(0);
    }
    var d := Domain([1, 0], [false, true], None);
    assert d.SetVisible(1, true).visible == [false, true][1 := true] == d.visible;
    assert d.PruneValue(0, true) == Some(d);
    assert [(0, 0)][1..] == [];
    assert [d][0 := d] == [d];
    assert FirstIndex([5], 0) == None by {
      assert FirstIndex([], 0) == None;
    }
  }

  /**
   * With identity values, undoing a log that names exactly what was hidden
   * between `S` and `T` gives back `S`.
   */
  lemma UndoRestores(S: seq<Domain>, T: seq<Domain>, log: seq<Pruned>)
    requires AllValid(S) && AllValid(T) && IdentityValues(S) && LogsExactly(S, T, log)
    ensures UndoByValue(T, log) == (true, S)
  {
    UndoShowsLogged(T, log);
    var u := UndoByValue(T, log).1;
    forall x | 0 <= x < |S| ensures u[x] == S[x] {
      forall j | 0 <= j < |S[x].visible| ensures u[x].visible[j] == S[x].visible[j] {
        if (x, j) in log {
          var k :| 0 <= k < |log| && log[k] == (x, j);
        }
      }
      assert u[x].visible == S[x].visible;
    }
    assert u == S;
  }

  // ---------------------------------------------------------------------------
  // _recurse (cp_solver/search.py:72-99)
  // ---------------------------------------------------------------------------

  /** What a call of `_recurse` leaves behind; `raised` stands for a ValueError escaping the undo. */
  datatype Outcome = Outcome(wipeout: Wipeout, doms: seq<Domain>, solution: Option<seq<int>>, raised: bool)

  /** `[v.assigned_value() for v in variables]` once every variable is assigned. */
  function Assigned(S: seq<Domain>): (vals: seq<int>)
    ensures |vals| == |S|
  {
    seq(|S|, k requires 0 <= k < |S| => S[k].assignment.GetOr(0))
  }

  /** The guarantees every call of `_recurse` gives, about the state it started from. */
  ghost predicate RecurseOk(S: seq<Domain>, r: Outcome) {
    |r.doms| == |S| && AllValid(r.doms) &&
    (r.solution.Some? <==> r.wipeout == NoDwo) &&
    (r.raised ==> r.wipeout == Dwo) &&
    (r.wipeout == NoDwo ==>
      (forall k :: 0 <= k < |S| ==> r.doms[k].IsAssigned()) && r.solution.value == Assigned(r.doms)) &&
    (forall k :: 0 <= k < |S| && S[k].IsAssigned() ==> r.doms[k].assignment == S[k].assignment)
  }

  /**
   * `_recurse`: with every variable assigned, record their values and report
   * no wipeout; otherwise try the values of the chosen variable.
   */
  function Recurse(P: Setup, S: seq<Domain>): (r: Outcome)
    requires AllValid(S) && Fits(P, |S|)
    ensures |r.doms| == |S| && AllValid(r.doms) && (r.solution.Some? <==> r.wipeout == NoDwo)
    decreases UnassignedCount(S), 2, 0
  {
    match MinDomain(S)
    case None => Outcome(NoDwo, S, Some(Assigned(S)), false)
    case Some(x) => TryValues(P, S, x, S[x].Iteration())
  }

  /** The two ways a call of `_recurse` begins. */
  lemma RecurseUnfold(P: Setup, S: seq<Domain>)
    requires AllValid(S) && Fits(P, |S|)
    ensures MinDomain(S).None? ==> Recurse(P, S) == Outcome(NoDwo, S, Some(Assigned(S)), false)
    ensures MinDomain(S).Some? ==>
      Recurse(P, S) == TryValues(P, S, MinDomain(S).value, S[MinDomain(S).value].Iteration())
  {
  }

  /** One iteration's first steps: assign `v` to `x` and propagate with `x` named. */
  function Attempt(P: Setup, S: seq<Domain>, x: nat, v: int): (p: Propagation)
    requires AllValid(S) && Fits(P, |S|) && x < |S| && !S[x].IsAssigned()
    ensures AllValid(p.doms) && |p.doms| == |S| && UnassignedCount(p.doms) == UnassignedCount(S) - 1
    ensures p.doms[x].assignment == Some(v)
    ensures forall k :: 0 <= k < |S| && k != x ==> p.doms[k].assignment == S[k].assignment
    ensures forall k :: 0 <= k < |p.log| ==> p.log[k].0 < |S|
  {
    var S1 := S[x := S[x].Assign(v)];
    AssignCounts(S, x, v);
    var p := Propagate(P, S1, Some(x));
    SameShapeSameCount(S1, p.doms);
    p
  }

  /**
   * After a wipeout: undo `log` and unassign `x`. False, with the state
   * reached, where the undo raises ValueError.
   */
  function Retract(S: seq<Domain>, x: nat, log: seq<Pruned>): (r: (bool, seq<Domain>))
    requires AllValid(S) && x < |S| && forall k :: 0 <= k < |log| ==> log[k].0 < |S|
    ensures |r.1| == |S| && AllValid(r.1)
    ensures forall k :: 0 <= k < |S| && k != x ==> r.1[k].assignment == S[k].assignment
    ensures r.0 ==> !r.1[x].IsAssigned()
  {
    var u := UndoByValue(S, log);
    if !u.0 then u else (true, u.1[x := u.1[x].Unassign()])
  }

  /** What one pass of the loop leaves: the call's outcome, or the state to go on from. */
  datatype Step = Done(o: Outcome) | Continue(doms: seq<Domain>)

  /**
   * One pass of the loop of `_recurse` for value `v` of variable `x`:
   * without wipeout the deeper call's outcome is returned at once; with one,
   * the log is undone and `x` unassigned, and the loop goes on from there.
   */
  function TryValue(P: Setup, S: seq<Domain>, x: nat, v: int): (r: Step)
    requires AllValid(S) && Fits(P, |S|) && x < |S| && !S[x].IsAssigned()
    ensures r.Done? ==> |r.o.doms| == |S| && AllValid(r.o.doms) && (r.o.solution.Some? <==> r.o.wipeout == NoDwo)
    ensures r.Continue? ==> |r.doms| == |S| && AllValid(r.doms) && !r.doms[x].IsAssigned()
    ensures r.Continue? ==> UnassignedCount(r.doms) == UnassignedCount(S)
    decreases UnassignedCount(S), 0, 0
  {
    var p := Attempt(P, S, x, v);
    if p.wipeout == NoDwo then Done(Recurse(P, p.doms))
    else
      var u := Retract(p.doms, x, p.log);
      if !u.0 then Done(Outcome(Dwo, u.1, None, true))
      else
        SameShapeSameCount(S, u.1);
        Continue(u.1)
  }

  /** The loop of `_recurse` over the values `vals` still to try for variable `x`; no value left is a wipeout. */
  function TryValues(P: Setup, S: seq<Domain>, x: nat, vals: seq<int>): (r: Outcome)
    requires AllValid(S) && Fits(P, |S|) && x < |S| && !S[x].IsAssigned()
    ensures |r.doms| == |S| && AllValid(r.doms) && (r.solution.Some? <==> r.wipeout == NoDwo)
    decreases UnassignedCount(S), 1, |vals|
  {
    if vals == [] then Outcome(Dwo, S, None, false)
    else
      match TryValue(P, S, x, vals[0])
      case Done(o) => o
      case Continue(S2) => TryValues(P, S2, x, vals[1..])
  }

  /**
   * Every call of `_recurse` reports a wipeout whenever a ValueError
   * escapes, records a solution exactly when it reports no wipeout, and
   * then every variable is assigned and the solution lists their values;
   * a variable assigned on entry keeps its value.
   */
  lemma {:induction false} RecurseSound(P: Setup, S: seq<Domain>)
    requires AllValid(S) && Fits(P, |S|)
    ensures RecurseOk(S, Recurse(P, S))
    decreases UnassignedCount(S), 2, 0
  {
    match MinDomain(S)
    case None =>
      NoneUnassignedCount(S);
    case Some(x) =>
      TryValuesSound(P, S, x, S[x].Iteration());
  }

  lemma {:induction false} TryValuesSound(P: Setup, S: seq<Domain>, x: nat, vals: seq<int>)
    requires AllValid(S) && Fits(P, |S|) && x < |S| && !S[x].IsAssigned()
    ensures RecurseOk(S, TryValues(P, S, x, vals))
    decreases UnassignedCount(S), 1, |vals|
  {
    if vals != [] {
      TryValueSound(P, S, x, vals[0]);
      match TryValue(P, S, x, vals[0])
      case Done(o) =>
      case Continue(S2) =>
        TryValuesSound(P, S2, x, vals[1..]);
    }
  }

  lemma {:induction false} TryValueSound(P: Setup, S: seq<Domain>, x: nat, v: int)
    requires AllValid(S) && Fits(P, |S|) && x < |S| && !S[x].IsAssigned()
    ensures TryValue(P, S, x, v).Done? ==> RecurseOk(S, TryValue(P, S, x, v).o)
    ensures TryValue(P, S, x, v).Continue? ==>
      forall k :: 0 <= k < |S| ==> TryValue(P, S, x, v).doms[k].assignment == S[k].assignment
    decreases UnassignedCount(S), 0, 0
  {
    var p := Attempt(P, S, x, v);
    if p.wipeout == NoDwo {
      RecurseSound(P, p.doms);
    }
  }

  /** The loop when the propagation for its first value reports no wipeout. */
  lemma PassSucceeds(P: Setup, S: seq<Domain>, x: nat, v: int, rest: seq<int>)
    requires AllValid(S) && Fits(P, |S|) && x < |S| && !S[x].IsAssigned()
    requires Attempt(P, S, x, v).wipeout == NoDwo
    ensures TryValues(P, S, x, [v] + rest) == Recurse(P, Attempt(P, S, x, v).doms)
  {
  }

  /** The loop when the propagation for its first value wipes out. */
  lemma PassFails(P: Setup, S: seq<Domain>, x: nat, v: int, rest: seq<int>, ok: bool, T: seq<Domain>)
    requires AllValid(S) && Fits(P, |S|) && x < |S| && !S[x].IsAssigned()
    requires Attempt(P, S, x, v).wipeout == Dwo
    requires (ok, T) == Retract(Attempt(P, S, x, v).doms, x, Attempt(P, S, x, v).log)
    ensures !ok ==> TryValues(P, S, x, [v] + rest) == Outcome(Dwo, T, None, true)
    ensures ok ==> !T[x].IsAssigned() && UnassignedCount(T) == UnassignedCount(S)
    ensures ok ==> TryValues(P, S, x, [v] + rest) == TryValues(P, T, x, rest)
  {
    assert ([v] + rest)[1..] == rest;
    if ok {
      SameShapeSameCount(S, T);
    }
  }

  /**
   * Once a value's propagation reports no wipeout, no further value is
   * tried: the outcome is the deeper call's, and the variable keeps that
   * value even when the deeper call reports a wipeout.
   */
  lemma NoRetry(P: Setup, S: seq<Domain>, x: nat, vals: seq<int>)
    requires AllValid(S) && Fits(P, |S|) && x < |S| && !S[x].IsAssigned() && vals != []
    requires Attempt(P, S, x, vals[0]).wipeout == NoDwo
    ensures TryValues(P, S, x, vals) == Recurse(P, Attempt(P, S, x, vals[0]).doms) &&
      TryValues(P, S, x, vals).doms[x].assignment == Some(vals[0])
  {
    RecurseSound(P, Attempt(P, S, x, vals[0]).doms);
  }

  /**
   * When every value's propagation wipes out and identity values make each
   * undo exact, the loop ends in a wipeout with the state it started from:
   * the variable unassigned and every pruning undone.
   */
  lemma {:induction false} AllValuesFail(P: Setup, S: seq<Domain>, x: nat, vals: seq<int>)
    requires AllValid(S) && Fits(P, |S|) && x < |S| && !S[x].IsAssigned() && IdentityValues(S)
    requires forall k :: 0 <= k < |vals| ==> Attempt(P, S, x, vals[k]).wipeout == Dwo
    ensures TryValues(P, S, x, vals) == Outcome(Dwo, S, None, false)
    decreases |vals|
  {
    if vals != [] {
      var S1 := S[x := S[x].Assign(vals[0])];
      var p := Propagate(P, S1, Some(x));
      assert Attempt(P, S, x, vals[0]) == p;
      assert AllValid(S1) && IdentityValues(S1);
      UndoRestores(S1, p.doms, p.log);
      assert S1[x := S1[x].Unassign()] == S;
      AllValuesFail(P, S, x, vals[1..]);
    }
  }

  // ---------------------------------------------------------------------------
  // search (cp_solver/search.py:53-70)
  // ---------------------------------------------------------------------------

  /** What `search` returns: a solution, None, or the ValueError an undo raised. */
  datatype SearchResult = Solution(values: seq<int>) | NoSolution | ValueError

  /** The first steps of `search`: restore everything, then propagate with no variable named. */
  function InitialPropagation(P: Setup, S0: seq<Domain>): (r: Propagation)
    requires AllValid(S0) && Fits(P, |S0|)
    ensures AllValid(r.doms) && LogsExactly(RestoreAll(S0), r.doms, r.log)
  {
    RestoreAllSpec(S0);
    Propagate(P, RestoreAll(S0), None)
  }

  /**
   * `search`: the result and the variables' final states. An initial
   * wipeout returns None at once; otherwise the recursion runs, the
   * initial log is undone, and the recorded solution is returned unless
   * the recursion reported a wipeout.
   */
  function Search(P: Setup, S0: seq<Domain>): (r: (SearchResult, seq<Domain>))
    requires AllValid(S0) && Fits(P, |S0|)
  {
    var init := InitialPropagation(P, S0);
    if init.wipeout == Dwo then (NoSolution, init.doms)
    else Finish(P, init.doms, init.log)
  }

  /**
   * The rest of `search` after an initial propagation without wipeout that
   * logged `log`: recurse, undo `log`, and return the recorded solution
   * unless the recursion reported a wipeout.
   */
  function Finish(P: Setup, S: seq<Domain>, log: seq<Pruned>): (r: (SearchResult, seq<Domain>))
    requires AllValid(S) && Fits(P, |S|) && forall k :: 0 <= k < |log| ==> log[k].0 < |S|
  {
    var o := Recurse(P, S);
    if o.raised then (ValueError, o.doms)
    else
      var u := UndoByValue(o.doms, log);
      if !u.0 then (ValueError, u.1)
      else if o.wipeout == Dwo then (NoSolution, u.1)
      else (Solution(o.solution.value), u.1)
  }

  /**
   * A solution has one entry per variable, and the variables are left
   * assigned to exactly those values.
   */
  lemma SearchSolutionShape(P: Setup, S0: seq<Domain>)
    requires AllValid(S0) && Fits(P, |S0|) && Search(P, S0).0.Solution?
    ensures var (res, S) := Search(P, S0);
      |res.values| == |S0| == |S| && forall k :: 0 <= k < |S| ==> S[k].assignment == Some(res.values[k])
  {
    var init := InitialPropagation(P, S0);
    var o := Recurse(P, init.doms);
    RecurseSound(P, init.doms);
    var u := UndoByValue(o.doms, init.log);
    assert SameShape(o.doms, u.1);
  }

  /**
   * When the initial propagation wipes out, `search` returns None with no
   * variable assigned, and every position that propagation hid stays hidden.
   */
  lemma InitialWipeoutLeaks(P: Setup, S0: seq<Domain>)
    requires AllValid(S0) && Fits(P, |S0|) && InitialPropagation(P, S0).wipeout == Dwo
    ensures var init := InitialPropagation(P, S0); var (res, S) := Search(P, S0);
      res == NoSolution && |S| == |S0| && (forall k :: 0 <= k < |S| ==> !S[k].IsAssigned()) &&
      forall k :: 0 <= k < |init.log| ==> init.log[k].0 < |S| && !S[init.log[k].0].visible[init.log[k].1]
  {
    RestoreAllSpec(S0);
  }
}
