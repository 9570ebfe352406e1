/**
 * Why `BacktrackSearch` with `ForwardCheck` returns only solutions that
 * satisfy every constraint. Forward checking keeps an invariant between
 * passes: every constraint whose scope is fully assigned holds on the
 * assigned values, and every constraint with exactly one unassigned
 * variable shows only values of it that pass its test. Assigning a shown
 * value and propagating keeps the invariant, and with identity values
 * (`values[i] == i`, as in a domain `range(n)`) each undo gives back exactly
 * the state before the failed value, so the invariant survives backtracking.
 * The invariant needs every scope to be non-empty and to name no variable
 * twice: an empty scope is never tested, and a scope naming one variable
 * twice never has exactly one unassigned entry.
 *
 * With `NoPropagation` the invariant is only that every fully assigned
 * constraint holds. Assigning a variable completes only constraints that
 * name it, and those are on its list, which `NoPropagation` checks. Nothing
 * is ever hidden or logged, so backtracking restores the state for any
 * domain values.
 */
module Soundness {
  import opened Wrappers
  import opened Domains
  import opened Constraints
  import opened Propagators
  import opened SearchModel
  import opened Csps

  /** Every scope is non-empty and names no variable twice. */
  predicate WellScoped(cons: seq<Constraint>) {
    forall j :: 0 <= j < |cons| ==> |cons[j].Scope()| > 0 && Distinct(cons[j].Scope())
  }

  /**
   * The invariant forward checking keeps: each fully assigned constraint
   * holds on its assigned values, and each constraint with one unassigned
   * variable shows only values of it that pass.
   */
  ghost predicate Consistent(cons: seq<Constraint>, S: seq<Domain>)
    requires AllValid(S) && forall j :: 0 <= j < |cons| ==> InScope(cons[j], |S|)
  {
    forall j :: 0 <= j < |cons| ==>
      (UnassignedOf(cons[j], S) == [] ==> cons[j].Test(AssignedTuple(cons[j], S))) && OneOk(cons[j], S)
  }

  /** The values a solution gives the scope of `c`, in scope order. */
  function Restrict(c: Constraint, vals: seq<int>): (t: seq<int>)
    requires InScope(c, |vals|)
    ensures |t| == |c.Scope()|
  {
    seq(|c.Scope()|, k requires 0 <= k < |c.Scope()| => vals[c.Scope()[k]])
  }

  // ---------------------------------------------------------------------------
  // Scopes and assignments
  // ---------------------------------------------------------------------------

  /** When only entry `k0` of `xs` is unassigned, the filter is that one variable. */
  lemma {:induction false} OnlyUnassigned(xs: seq<nat>, S: seq<Domain>, k0: nat)
    requires forall k :: 0 <= k < |xs| ==> xs[k] < |S|
    requires k0 < |xs| && !S[xs[k0]].IsAssigned()
    requires forall k :: 0 <= k < |xs| && k != k0 ==> S[xs[k]].IsAssigned()
    ensures FilterUnassigned(xs, S) == [xs[k0]]
  {
    var init := xs[..|xs| - 1];
    if k0 == |xs| - 1 {
      NoneUnassigned(init, S);
    } else {
      OnlyUnassigned(init, S, k0);
    }
  }

  /**
   * The tuple `forward_check` tests for candidate `v` is the scope's tuple
   * once the one unassigned variable is assigned `v`.
   */
  lemma FillIsAssigned(c: Constraint, S: seq<Domain>, v: int)
    requires InScope(c, |S|) && |UnassignedOf(c, S)| == 1
    ensures FirstNone(Slots(c, S)).Some?
    ensures Fill(Slots(c, S), FirstNone(Slots(c, S)).value, v) ==
      AssignedTuple(c, S[UnassignedOf(c, S)[0] := S[UnassignedOf(c, S)[0]].Assign(v)])
  {
    OneUnassignedSlot(c, S);
    var x := UnassignedOf(c, S)[0];
    var S1 := S[x := S[x].Assign(v)];
    var k0 := FirstNone(Slots(c, S)).value;
    var f := Fill(Slots(c, S), k0, v);
    var t := AssignedTuple(c, S1);
    forall k | 0 <= k < |c.Scope()| ensures f[k] == t[k] {
      if k != k0 {
        assert c.Scope()[k] != x;
      }
    }
  }

  /** The assigned tuple depends only on the scope variables' assignments. */
  lemma SameAssignmentsSameTuple(c: Constraint, S: seq<Domain>, T: seq<Domain>)
    requires InScope(c, |S|) && |T| == |S|
    requires forall k :: 0 <= k < |c.Scope()| ==> T[c.Scope()[k]].assignment == S[c.Scope()[k]].assignment
    ensures AssignedTuple(c, T) == AssignedTuple(c, S)
  {
  }

  /** Every value `Iteration` yields for an unassigned variable sits at a visible position. */
  lemma IterationVisible(d: Domain, v: int)
    requires d.Valid() && !d.IsAssigned() && v in d.Iteration()
    ensures exists j :: 0 <= j < |d.visible| && d.visible[j] && d.values[j] == v
  {
    IterationSpec(d);
    var ps := Positions(d.visible, 0);
    var k :| 0 <= k < |d.Iteration()| && d.Iteration()[k] == v;
    assert ps[k] in ps;
  }

  // ---------------------------------------------------------------------------
  // One pass of the loop of _recurse
  // ---------------------------------------------------------------------------

  /**
   * Assigning a shown value of an unassigned variable and running
   * `ForwardCheck` without wipeout keeps the invariant, and keeps identity
   * values.
   */
  lemma AttemptConsistent(P: Setup, S: seq<Domain>, x: nat, v: int)
    requires AllValid(S) && Fits(P, |S|) && x < |S| && !S[x].IsAssigned()
    requires P.prop == ForwardCheck && WellScoped(P.cons) && Consistent(P.cons, S) && IdentityValues(S)
    requires exists j :: 0 <= j < |S[x].visible| && S[x].visible[j] && S[x].values[j] == v
    requires Attempt(P, S, x, v).wipeout == NoDwo
    ensures Consistent(P.cons, Attempt(P, S, x, v).doms) && IdentityValues(Attempt(P, S, x, v).doms)
  {
    var S1 := S[x := S[x].Assign(v)];
    var p := Attempt(P, S, x, v);
    assert p == ForwardCheckAll(P.cons, S1);
    ForwardCheckAllLogs(P.cons, S1);
    ForwardCheckAllConsistent(P.cons, S1);
    forall j | 0 <= j < |P.cons| && UnassignedOf(P.cons[j], p.doms) == []
      ensures P.cons[j].Test(AssignedTuple(P.cons[j], p.doms))
    {
      AssignedAlike(P.cons[j], S1, p.doms);
      AssignedHolds(P.cons[j], S, x, v);
    }
  }

  /**
   * A constraint fully assigned after assigning `v` to `x` holds, given the
   * invariant before.
   */
  lemma AssignedHolds(c: Constraint, S: seq<Domain>, x: nat, v: int)
    requires AllValid(S) && InScope(c, |S|) && x < |S| && !S[x].IsAssigned() && Distinct(c.Scope())
    requires (UnassignedOf(c, S) == [] ==> c.Test(AssignedTuple(c, S))) && OneOk(c, S)
    requires exists j :: 0 <= j < |S[x].visible| && S[x].visible[j] && S[x].values[j] == v
    requires forall k :: 0 <= k < |c.Scope()| ==> S[x := S[x].Assign(v)][c.Scope()[k]].IsAssigned()
    ensures c.Test(AssignedTuple(c, S[x := S[x].Assign(v)]))
  {
    if k0 :| 0 <= k0 < |c.Scope()| && c.Scope()[k0] == x {
      NewlyAssignedHolds(c, S, x, v, k0);
    } else {
      NoneUnassigned(c.Scope(), S);
      SameAssignmentsSameTuple(c, S, S[x := S[x].Assign(v)]);
    }
  }

  /**
   * A constraint whose one unassigned variable `x` is assigned a shown
   * value `v` holds: forward checking kept only passing values of `x`.
   */
  lemma NewlyAssignedHolds(c: Constraint, S: seq<Domain>, x: nat, v: int, k0: nat)
    requires AllValid(S) && InScope(c, |S|) && x < |S| && !S[x].IsAssigned()
    requires k0 < |c.Scope()| && c.Scope()[k0] == x && Distinct(c.Scope())
    requires forall k :: 0 <= k < |c.Scope()| ==> S[x := S[x].Assign(v)][c.Scope()[k]].IsAssigned()
    requires OneOk(c, S)
    requires exists j :: 0 <= j < |S[x].visible| && S[x].visible[j] && S[x].values[j] == v
    ensures c.Test(AssignedTuple(c, S[x := S[x].Assign(v)]))
  {
    forall k | 0 <= k < |c.Scope()| && k != k0 ensures S[c.Scope()[k]].IsAssigned() {
      assert c.Scope()[k] != c.Scope()[k0];
    }
    OnlyUnassigned(c.Scope(), S, k0);
    FillIsAssigned(c, S, v);
    var j :| 0 <= j < |S[x].visible| && S[x].visible[j] && S[x].values[j] == v;
    assert Passes(c, S, S[x].values[j]);
  }

  /** A constraint fully assigned in `T` is so in any `S` with the same assignments, with the same tuple. */
  lemma AssignedAlike(c: Constraint, S: seq<Domain>, T: seq<Domain>)
    requires InScope(c, |S|) && |T| == |S| && UnassignedOf(c, T) == []
    requires forall k :: 0 <= k < |S| ==> T[k].assignment == S[k].assignment
    ensures forall k :: 0 <= k < |c.Scope()| ==> S[c.Scope()[k]].IsAssigned()
    ensures AssignedTuple(c, T) == AssignedTuple(c, S)
  {
    NoneUnassigned(c.Scope(), T);
    SameAssignmentsSameTuple(c, S, T);
  }

  /** With identity values, a pass that wipes out gives back the state it started from. */
  lemma RetractRestores(P: Setup, S: seq<Domain>, x: nat, v: int)
    requires AllValid(S) && Fits(P, |S|) && x < |S| && !S[x].IsAssigned() && IdentityValues(S)
    requires Attempt(P, S, x, v).wipeout == Dwo
    ensures Retract(Attempt(P, S, x, v).doms, x, Attempt(P, S, x, v).log) == (true, S)
  {
    var S1 := S[x := S[x].Assign(v)];
    var p := Propagate(P, S1, Some(x));
    assert Attempt(P, S, x, v) == p;
    assert AllValid(S1) && IdentityValues(S1);
    UndoRestores(S1, p.doms, p.log);
    assert S1[x := S1[x].Unassign()] == S;
  }

  // ---------------------------------------------------------------------------
  // The recursion
  // ---------------------------------------------------------------------------

  /** A call of `_recurse` from a state keeping the invariant reports no wipeout only in a state keeping it. */
  lemma {:induction false} RecurseConsistent(P: Setup, S: seq<Domain>)
    requires AllValid(S) && Fits(P, |S|)
    requires P.prop == ForwardCheck && WellScoped(P.cons) && Consistent(P.cons, S) && IdentityValues(S)
    ensures Recurse(P, S).wipeout == NoDwo ==> Consistent(P.cons, Recurse(P, S).doms)
    decreases UnassignedCount(S), 2, 0
  {
    match MinDomain(S)
    case None =>
    case Some(x) =>
      TryValuesConsistent(P, S, x, S[x].Iteration());
  }

  lemma {:induction false} TryValuesConsistent(P: Setup, S: seq<Domain>, x: nat, vals: seq<int>)
    requires AllValid(S) && Fits(P, |S|) && x < |S| && !S[x].IsAssigned()
    requires P.prop == ForwardCheck && WellScoped(P.cons) && Consistent(P.cons, S) && IdentityValues(S)
    requires forall k :: 0 <= k < |vals| ==> vals[k] in S[x].Iteration()
    ensures TryValues(P, S, x, vals).wipeout == NoDwo ==> Consistent(P.cons, TryValues(P, S, x, vals).doms)
    decreases UnassignedCount(S), 1, |vals|
  {
    if vals != [] {
      var p := Attempt(P, S, x, vals[0]);
      if p.wipeout == NoDwo {
        IterationVisible(S[x], vals[0]);
        AttemptConsistent(P, S, x, vals[0]);
        RecurseConsistent(P, p.doms);
      } else {
        RetractRestores(P, S, x, vals[0]);
        TryValuesConsistent(P, S, x, vals[1..]);
      }
    }
  }

  // ---------------------------------------------------------------------------
  // search
  // ---------------------------------------------------------------------------

  /** The initial `ForwardCheck` without wipeout establishes the invariant and keeps identity values. */
  lemma InitialConsistent(P: Setup, S0: seq<Domain>)
    requires AllValid(S0) && Fits(P, |S0|) && P.prop == ForwardCheck && WellScoped(P.cons) && IdentityValues(S0)
    requires InitialPropagation(P, S0).wipeout == NoDwo
    ensures Consistent(P.cons, InitialPropagation(P, S0).doms) && IdentityValues(InitialPropagation(P, S0).doms)
  {
    RestoreAllSpec(S0);
    var R := RestoreAll(S0);
    var T := ForwardCheckAll(P.cons, R).doms;
    assert InitialPropagation(P, S0).doms == T;
    ForwardCheckAllLogs(P.cons, R);
    ForwardCheckAllConsistent(P.cons, R);
    NothingAssignedConsistent(P.cons, T);
  }

  /** With no variable assigned, every constraint with a non-empty scope has an unassigned entry. */
  lemma NothingAssignedConsistent(cons: seq<Constraint>, T: seq<Domain>)
    requires AllValid(T) && forall j :: 0 <= j < |cons| ==> InScope(cons[j], |T|)
    requires WellScoped(cons) && forall k :: 0 <= k < |T| ==> !T[k].IsAssigned()
    requires forall j :: 0 <= j < |cons| ==> OneOk(cons[j], T)
    ensures Consistent(cons, T)
  {
    forall j | 0 <= j < |cons| ensures UnassignedOf(cons[j], T) != [] {
      NoneUnassigned(cons[j].Scope(), T);
      assert !T[cons[j].Scope()[0]].IsAssigned();
    }
  }

  /**
   * With `ForwardCheck`, identity values and well-formed scopes, a solution
   * `search` returns satisfies every constraint.
   */
  lemma SearchSound(P: Setup, S0: seq<Domain>)
    requires AllValid(S0) && Fits(P, |S0|) && P.prop == ForwardCheck && WellScoped(P.cons) && IdentityValues(S0)
    requires Search(P, S0).0.Solution?
    ensures |Search(P, S0).0.values| == |S0|
    ensures forall j :: 0 <= j < |P.cons| ==> P.cons[j].Test(Restrict(P.cons[j], Search(P, S0).0.values))
  {
    var init := InitialPropagation(P, S0);
    InitialConsistent(P, S0);
    var o := Recurse(P, init.doms);
    RecurseSound(P, init.doms);
    RecurseConsistent(P, init.doms);
    var vals := o.solution.value;
    assert Search(P, S0).0.values == vals;
    forall j | 0 <= j < |P.cons| ensures P.cons[j].Test(Restrict(P.cons[j], vals)) {
      NoneUnassigned(P.cons[j].Scope(), o.doms);
      assert AssignedTuple(P.cons[j], o.doms) == Restrict(P.cons[j], vals);
    }
  }

  // ---------------------------------------------------------------------------
  // search with NoPropagation
  // ---------------------------------------------------------------------------

  /** Each variable's list is the constraints naming it, in registration order, as `add_constraint` leaves it. */
  ghost predicate ListsInvolving(P: Setup, n: nat) {
    forall k: nat :: k < n ==> k in P.byVar && P.byVar[k] == Involving(P.cons, k)
  }

  /** A CSP whose lists hold what registering its constraints puts there presents such lists to the propagator. */
  lemma RegisteredListsInvolving(prop: Propagator, csp: CSP)
    requires csp.Registered()
    ensures ListsInvolving(SetupOf(prop, csp), |csp.vars|)
  {
  }

  /** The invariant `NoPropagation` keeps: each fully assigned constraint holds on its assigned values. */
  ghost predicate AssignedHold(cons: seq<Constraint>, S: seq<Domain>)
    requires forall j :: 0 <= j < |cons| ==> InScope(cons[j], |S|)
  {
    forall j :: 0 <= j < |cons| ==> UnassignedOf(cons[j], S) == [] ==> cons[j].Test(AssignedTuple(cons[j], S))
  }

  /**
   * Assigning any value to an unassigned variable keeps the invariant when
   * `NoPropagation` reports no wipeout: every constraint this assignment
   * completes names the variable, so it is on the variable's list and was
   * tested.
   */
  lemma AttemptHolds(P: Setup, S: seq<Domain>, x: nat, v: int)
    requires AllValid(S) && Fits(P, |S|) && x < |S| && !S[x].IsAssigned()
    requires P.prop == NoPropagation && ListsInvolving(P, |S|) && AssignedHold(P.cons, S)
    requires Attempt(P, S, x, v).wipeout == NoDwo
    ensures AssignedHold(P.cons, Attempt(P, S, x, v).doms)
  {
    var S1 := S[x := S[x].Assign(v)];
    assert Attempt(P, S, x, v) == Propagation(NoPropagationSpec(P.byVar[x], S1), [], S1);
    InvolvingSpec(P.cons, x);
    forall j | 0 <= j < |P.cons| && UnassignedOf(P.cons[j], S1) == []
      ensures P.cons[j].Test(AssignedTuple(P.cons[j], S1))
    {
      if x in P.cons[j].Scope() {
        ListedHolds(P.byVar[x], S1, P.cons[j]);
      } else {
        UntouchedHolds(P.cons[j], S, x, v);
      }
    }
  }

  /** A fully assigned constraint on the list `NoPropagation` checked without wipeout holds. */
  lemma ListedHolds(listed: seq<Constraint>, S: seq<Domain>, c: Constraint)
    requires AllValid(S) && forall j :: 0 <= j < |listed| ==> InScope(listed[j], |S|)
    requires NoPropagationSpec(listed, S) == NoDwo && c in listed && UnassignedOf(c, S) == []
    ensures c.Test(AssignedTuple(c, S))
  {
    NoPropagationDwoIff(listed, S);
    var i :| 0 <= i < |listed| && listed[i] == c;
  }

  /** A constraint not naming `x` that is fully assigned once `x` is, was fully assigned before, on the same values. */
  lemma UntouchedHolds(c: Constraint, S: seq<Domain>, x: nat, v: int)
    requires AllValid(S) && InScope(c, |S|) && x < |S| && x !in c.Scope()
    requires UnassignedOf(c, S) == [] ==> c.Test(AssignedTuple(c, S))
    requires UnassignedOf(c, S[x := S[x].Assign(v)]) == []
    ensures c.Test(AssignedTuple(c, S[x := S[x].Assign(v)]))
  {
    var S1 := S[x := S[x].Assign(v)];
    NoneUnassigned(c.Scope(), S1);
    NoneUnassigned(c.Scope(), S);
    SameAssignmentsSameTuple(c, S, S1);
  }

  /** With `NoPropagation` nothing is logged, so a wipeout gives back the state before the value. */
  lemma RetractNothing(P: Setup, S: seq<Domain>, x: nat, v: int)
    requires AllValid(S) && Fits(P, |S|) && x < |S| && !S[x].IsAssigned() && P.prop == NoPropagation
    ensures Retract(Attempt(P, S, x, v).doms, x, Attempt(P, S, x, v).log) == (true, S)
  {
    var S1 := S[x := S[x].Assign(v)];
    assert Attempt(P, S, x, v).doms == S1 && Attempt(P, S, x, v).log == [];
    assert S1[x := S1[x].Unassign()] == S;
  }

  /** With `NoPropagation`, a call of `_recurse` from a state keeping the invariant reports no wipeout only in a state keeping it. */
  lemma {:induction false} RecurseHolds(P: Setup, S: seq<Domain>)
    requires AllValid(S) && Fits(P, |S|)
    requires P.prop == NoPropagation && ListsInvolving(P, |S|) && AssignedHold(P.cons, S)
    ensures Recurse(P, S).wipeout == NoDwo ==> AssignedHold(P.cons, Recurse(P, S).doms)
    decreases UnassignedCount(S), 2, 0
  {
    match MinDomain(S)
    case None =>
    case Some(x) =>
      TryValuesHolds(P, S, x, S[x].Iteration());
  }

  lemma {:induction false} TryValuesHolds(P: Setup, S: seq<Domain>, x: nat, vals: seq<int>)
    requires AllValid(S) && Fits(P, |S|) && x < |S| && !S[x].IsAssigned()
    requires P.prop == NoPropagation && ListsInvolving(P, |S|) && AssignedHold(P.cons, S)
    ensures TryValues(P, S, x, vals).wipeout == NoDwo ==> AssignedHold(P.cons, TryValues(P, S, x, vals).doms)
    decreases UnassignedCount(S), 1, |vals|
  {
    if vals != [] {
      var p := Attempt(P, S, x, vals[0]);
      if p.wipeout == NoDwo {
        AttemptHolds(P, S, x, vals[0]);
        RecurseHolds(P, p.doms);
      } else {
        RetractNothing(P, S, x, vals[0]);
        TryValuesHolds(P, S, x, vals[1..]);
      }
    }
  }

  /** With no variable assigned, no constraint with a non-empty scope is fully assigned. */
  lemma NothingAssignedHolds(cons: seq<Constraint>, T: seq<Domain>)
    requires forall j :: 0 <= j < |cons| ==> InScope(cons[j], |T|) && |cons[j].Scope()| > 0
    requires forall k :: 0 <= k < |T| ==> !T[k].IsAssigned()
    ensures AssignedHold(cons, T)
  {
    forall j | 0 <= j < |cons| ensures UnassignedOf(cons[j], T) != [] {
      NoneUnassigned(cons[j].Scope(), T);
      assert !T[cons[j].Scope()[0]].IsAssigned();
    }
  }

  /** The initial `NoPropagation` call reports no wipeout, logs nothing, and leaves a state keeping the invariant. */
  lemma InitialHolds(P: Setup, S0: seq<Domain>)
    requires AllValid(S0) && Fits(P, |S0|) && P.prop == NoPropagation
    requires forall j :: 0 <= j < |P.cons| ==> |P.cons[j].Scope()| > 0
    ensures AllValid(RestoreAll(S0)) && InitialPropagation(P, S0) == Propagation(NoDwo, [], RestoreAll(S0))
    ensures AssignedHold(P.cons, RestoreAll(S0))
  {
    RestoreAllSpec(S0);
    NothingAssignedHolds(P.cons, RestoreAll(S0));
  }

  /**
   * With `NoPropagation`, lists as `add_constraint` builds them and
   * non-empty scopes, a solution `search` returns satisfies every
   * constraint, whatever the domains' values.
   */
  lemma SearchSoundNoPropagation(P: Setup, S0: seq<Domain>)
    requires AllValid(S0) && Fits(P, |S0|) && P.prop == NoPropagation && ListsInvolving(P, |S0|)
    requires forall j :: 0 <= j < |P.cons| ==> |P.cons[j].Scope()| > 0
    requires Search(P, S0).0.Solution?
    ensures |Search(P, S0).0.values| == |S0|
    ensures forall j :: 0 <= j < |P.cons| ==> P.cons[j].Test(Restrict(P.cons[j], Search(P, S0).0.values))
  {
    InitialHolds(P, S0);
    var R := RestoreAll(S0);
    var o := Recurse(P, R);
    RecurseSound(P, R);
    RecurseHolds(P, R);
    assert UndoByValue(o.doms, []) == (true, o.doms);
    var vals := o.solution.value;
    assert Search(P, S0).0.values == vals;
    forall j | 0 <= j < |P.cons| ensures P.cons[j].Test(Restrict(P.cons[j], vals)) {
      NoneUnassigned(P.cons[j].Scope(), o.doms);
      assert AssignedTuple(P.cons[j], o.doms) == Restrict(P.cons[j], vals);
    }
  }
}
