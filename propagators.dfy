/**
 * The propagators of cp_solver/propagator.py. `NoPropagation` only checks
 * the fully assigned constraints involving the newly assigned variable;
 * `ForwardCheck` runs `forward_check` on every constraint in order,
 * concatenating the undo logs and stopping at the first wipeout. Each is
 * specified on the variables' states and then run over the CSP object.
 */
module Propagators {
  import opened Wrappers
  import opened Domains
  import opened Variables
  import opened Constraints
  import opened Checking
  import opened Csps

  /** The propagators the source implements (`GeneralArcConsistency` is an empty stub). */
  datatype Propagator = NoPropagation | ForwardCheck

  /** What a propagator reads besides the variables: the constraints in order and each variable's list. */
  datatype Setup = Setup(prop: Propagator, cons: seq<Constraint>, byVar: map<nat, seq<Constraint>>)

  /** Every constraint and every listed constraint ranges over the `n` variables, each of which has a list. */
  ghost predicate Fits(P: Setup, n: nat) {
    (forall j :: 0 <= j < |P.cons| ==> InScope(P.cons[j], n)) &&
    (forall k: nat :: k < n ==> k in P.byVar) &&
    (forall k, j :: k in P.byVar && 0 <= j < |P.byVar[k]| ==> InScope(P.byVar[k][j], n))
  }

  // ---------------------------------------------------------------------------
  // NoPropagation (cp_solver/propagator.py:13-21)
  // ---------------------------------------------------------------------------

  /** The loop of `NoPropagation`: a wipeout at the first fully assigned constraint that is infeasible. */
  function NoPropagationSpec(involving: seq<Constraint>, S: seq<Domain>): Wipeout
    requires AllValid(S) && forall j :: 0 <= j < |involving| ==> InScope(involving[j], |S|)
  {
    if involving == [] then NoDwo
    else if UnassignedOf(involving[0], S) == [] && !CheckFeasible(involving[0], S) then Dwo
    else NoPropagationSpec(involving[1..], S)
  }

  /**
   * `NoPropagation` reports a wipeout exactly when one of the listed
   * constraints has its whole scope assigned and its test fails on the
   * assigned values.
   */
  lemma {:induction false} NoPropagationDwoIff(involving: seq<Constraint>, S: seq<Domain>)
    requires AllValid(S) && forall j :: 0 <= j < |involving| ==> InScope(involving[j], |S|)
    ensures NoPropagationSpec(involving, S) == Dwo <==>
      exists j :: 0 <= j < |involving| && UnassignedOf(involving[j], S) == [] &&
        !involving[j].Test(AssignedTuple(involving[j], S))
  {
    if involving != [] {
      NoPropagationDwoIff(involving[1..], S);
      if UnassignedOf(involving[0], S) == [] {
        CheckFeasibleAssigned(involving[0], S);
      }
      if exists j ::
        0 <= j < |involving| && UnassignedOf(involving[j], S) == [] && !involving[j].Test(AssignedTuple(involving[j], S))
      {
        var j :| 0 <= j < |involving| && UnassignedOf(involving[j], S) == [] &&
          !involving[j].Test(AssignedTuple(involving[j], S));
        if j > 0 {
          assert involving[1..][j - 1] == involving[j];
        }
      }
    }
  }

  // ---------------------------------------------------------------------------
  // ForwardCheck (cp_solver/propagator.py:24-34)
  // ---------------------------------------------------------------------------

  /** Hiding in two steps hides what either step hid, and the two logs together name exactly that. */
  lemma HidesCompose(S: seq<Domain>, T: seq<Domain>, U: seq<Domain>, l1: seq<Pruned>, l2: seq<Pruned>)
    requires LogsExactly(S, T, l1) && LogsExactly(T, U, l2)
    ensures LogsExactly(S, U, l1 + l2)
  {
    forall k | 0 <= k < |l1 + l2|
      ensures (l1 + l2)[k].0 < |S| && (l1 + l2)[k].1 < |S[(l1 + l2)[k].0].visible| &&
        S[(l1 + l2)[k].0].visible[(l1 + l2)[k].1] && !U[(l1 + l2)[k].0].visible[(l1 + l2)[k].1]
    {
      if k < |l1| {
        assert (l1 + l2)[k] == l1[k];
      } else {
        assert (l1 + l2)[k] == l2[k - |l1|];
      }
    }
    forall x, j | 0 <= x < |S| && 0 <= j < |S[x].visible| && S[x].visible[j] && !U[x].visible[j]
      ensures (x, j) in l1 + l2
    {
      if !T[x].visible[j] {
        assert (x, j) in l1;
      } else {
        assert (x, j) in l2;
      }
    }
  }

  /** `r` with `log` in front of its own log. */
  function Prepend(log: seq<Pruned>, r: Propagation): Propagation {
    Propagation(r.wipeout, log + r.log, r.doms)
  }

  /**
   * `ForwardCheck`: `forward_check` on each constraint in order, the logs
   * concatenated, stopping after the first constraint that reports a
   * wipeout.
   */
  function ForwardCheckAll(cons: seq<Constraint>, S: seq<Domain>): (r: Propagation)
    requires AllValid(S) && forall j :: 0 <= j < |cons| ==> InScope(cons[j], |S|)
    ensures AllValid(r.doms) && |r.doms| == |S|
  {
    if cons == [] then Propagation(NoDwo, [], S)
    else
      var first := ForwardCheckSpec(cons[0], S);
      ForwardCheckValid(cons[0], S);
      if first.wipeout == Dwo then first
      else Prepend(first.log, ForwardCheckAll(cons[1..], first.doms))
  }

  /** Whatever `ForwardCheck` hides, its log names exactly, and it shows nothing that was hidden. */
  lemma {:induction false} ForwardCheckAllLogs(cons: seq<Constraint>, S: seq<Domain>)
    requires AllValid(S) && forall j :: 0 <= j < |cons| ==> InScope(cons[j], |S|)
    ensures LogsExactly(S, ForwardCheckAll(cons, S).doms, ForwardCheckAll(cons, S).log)
  {
    if cons != [] {
      var first := ForwardCheckSpec(cons[0], S);
      ForwardCheckFrame(cons[0], S);
      if first.wipeout == NoDwo {
        var rest := ForwardCheckAll(cons[1..], first.doms);
        ForwardCheckAllLogs(cons[1..], first.doms);
        HidesCompose(S, first.doms, rest.doms, first.log, rest.log);
      }
    }
  }

  /** One step of `ForwardCheck` from position `i` of the constraint list. */
  lemma ForwardCheckAllStep(cons: seq<Constraint>, i: nat, S: seq<Domain>)
    requires AllValid(S) && forall j :: 0 <= j < |cons| ==> InScope(cons[j], |S|)
    requires i < |cons|
    ensures AllValid(ForwardCheckSpec(cons[i], S).doms)
    ensures var first := ForwardCheckSpec(cons[i], S);
      ForwardCheckAll(cons[i..], S) ==
        if first.wipeout == Dwo then first else Prepend(first.log, ForwardCheckAll(cons[i + 1..], first.doms))
  {
    ForwardCheckValid(cons[i], S);
    assert cons[i..][1..] == cons[i + 1..];
  }

  lemma PrependTwice(a: seq<Pruned>, b: seq<Pruned>, r: Propagation)
    ensures Prepend(a, Prepend(b, r)) == Prepend(a + b, r)
  {
  }

  /**
   * A wipeout from `ForwardCheck` comes from some constraint `cons[i]`: the
   * constraints before it ran without wipeout, and the result is that of
   * running the list only up to and including `cons[i]`.
   */
  lemma {:induction false} ForwardCheckAllStops(cons: seq<Constraint>, S: seq<Domain>) returns (i: nat)
    requires AllValid(S) && forall j :: 0 <= j < |cons| ==> InScope(cons[j], |S|)
    requires ForwardCheckAll(cons, S).wipeout == Dwo
    ensures i < |cons| && ForwardCheckAll(cons[..i], S).wipeout == NoDwo
    ensures ForwardCheckAll(cons[..i + 1], S).wipeout == Dwo
    ensures ForwardCheckAll(cons, S) == ForwardCheckAll(cons[..i + 1], S)
  {
    var first := ForwardCheckSpec(cons[0], S);
    ForwardCheckValid(cons[0], S);
    if first.wipeout == Dwo {
      i := 0;
      assert cons[..0] == [] && cons[..1][0] == cons[0];
    } else {
      var i' := ForwardCheckAllStops(cons[1..], first.doms);
      i := i' + 1;
      assert cons[..i][0] == cons[0] && cons[..i][1..] == cons[1..][..i'];
      assert cons[..i + 1][0] == cons[0] && cons[..i + 1][1..] == cons[1..][..i' + 1];
    }
  }

  /** `ForwardCheck` over a single constraint is that constraint's `forward_check`. */
  lemma ForwardCheckAllOne(c: Constraint, S: seq<Domain>)
    requires AllValid(S) && InScope(c, |S|)
    ensures ForwardCheckAll([c], S) == ForwardCheckSpec(c, S)
  {
    ForwardCheckValid(c, S);
    assert [c][0] == c && [c][1..] == [];
    var r := ForwardCheckSpec(c, S);
    assert r.log + [] == r.log;
  }

  /**
   * Running one more constraint after a prefix without wipeout: the prefix's
   * log, followed by what that constraint does from where the prefix left
   * the variables.
   */
  lemma {:induction false} ForwardCheckAllSnoc(cons: seq<Constraint>, c: Constraint, S: seq<Domain>)
    requires AllValid(S) && forall j :: 0 <= j < |cons| ==> InScope(cons[j], |S|)
    requires InScope(c, |S|) && ForwardCheckAll(cons, S).wipeout == NoDwo
    ensures forall j :: 0 <= j < |cons + [c]| ==> InScope((cons + [c])[j], |S|)
    ensures ForwardCheckAll(cons + [c], S) ==
      Prepend(ForwardCheckAll(cons, S).log, ForwardCheckAll([c], ForwardCheckAll(cons, S).doms))
  {
    assert forall j :: 0 <= j < |cons + [c]| ==> InScope((cons + [c])[j], |S|) by {
      forall j | 0 <= j < |cons + [c]| ensures InScope((cons + [c])[j], |S|) {
        if j < |cons| {
          assert (cons + [c])[j] == cons[j];
        }
      }
    }
    if cons == [] {
      assert [] + [c] == [c];
    } else {
      var first := ForwardCheckSpec(cons[0], S);
      ForwardCheckValid(cons[0], S);
      assert (cons + [c])[0] == cons[0] && (cons + [c])[1..] == cons[1..] + [c];
      ForwardCheckAllSnoc(cons[1..], c, first.doms);
      var mid := ForwardCheckAll(cons[1..], first.doms);
      PrependTwice(first.log, mid.log, ForwardCheckAll([c], mid.doms));
    }
  }

  /** The constraint's one unassigned variable keeps only values that pass its test. */
  ghost predicate OneOk(c: Constraint, S: seq<Domain>)
    requires AllValid(S) && InScope(c, |S|)
  {
    |UnassignedOf(c, S)| == 1 ==>
      var u := UnassignedOf(c, S)[0];
      forall j :: 0 <= j < |S[u].visible| && S[u].visible[j] ==> Passes(c, S, S[u].values[j])
  }

  /** Hiding more values keeps every kept value passing. */
  lemma OneOkHides(c: Constraint, S: seq<Domain>, T: seq<Domain>)
    requires AllValid(S) && AllValid(T) && InScope(c, |S|) && OnlyHides(S, T) && OneOk(c, S)
    ensures OneOk(c, T)
  {
    SameAssignmentsSameFilter(c.Scope(), S, T);
    assert Slots(c, T) == Slots(c, S);
  }

  /** After one `forward_check`, its own constraint keeps only passing values. */
  lemma ForwardCheckOneOk(c: Constraint, S: seq<Domain>)
    requires AllValid(S) && InScope(c, |S|)
    ensures AllValid(ForwardCheckSpec(c, S).doms) && OneOk(c, ForwardCheckSpec(c, S).doms)
  {
    ForwardCheckFrame(c, S);
    if |UnassignedOf(c, S)| == 1 {
      ForwardCheckKeepsPassing(c, S);
    }
  }

  /**
   * After `ForwardCheck` reports no wipeout, every constraint with exactly
   * one unassigned variable keeps only values of it that pass its test.
   */
  lemma {:induction false} ForwardCheckAllConsistent(cons: seq<Constraint>, S: seq<Domain>)
    requires AllValid(S) && forall j :: 0 <= j < |cons| ==> InScope(cons[j], |S|)
    requires ForwardCheckAll(cons, S).wipeout == NoDwo
    ensures forall j :: 0 <= j < |cons| ==> OneOk(cons[j], ForwardCheckAll(cons, S).doms)
  {
    if cons != [] {
      var first := ForwardCheckSpec(cons[0], S);
      ForwardCheckOneOk(cons[0], S);
      var rest := ForwardCheckAll(cons[1..], first.doms);
      ForwardCheckAllConsistent(cons[1..], first.doms);
      ForwardCheckAllLogs(cons[1..], first.doms);
      OneOkHides(cons[0], first.doms, rest.doms);
      OneOkCons(cons, rest.doms);
    }
  }

  /** Every constraint of a list keeps only passing values once its first and its tail do. */
  lemma OneOkCons(cons: seq<Constraint>, T: seq<Domain>)
    requires AllValid(T) && forall j :: 0 <= j < |cons| ==> InScope(cons[j], |T|)
    requires cons != [] && OneOk(cons[0], T)
    requires forall j :: 0 <= j < |cons[1..]| ==> OneOk(cons[1..][j], T)
    ensures forall j :: 0 <= j < |cons| ==> OneOk(cons[j], T)
  {
    forall j | 0 <= j < |cons| ensures OneOk(cons[j], T) {
      if j > 0 {
        assert cons[j] == cons[1..][j - 1];
      }
    }
  }

  // ---------------------------------------------------------------------------
  // Dispatch (the `__call__` of each propagator)
  // ---------------------------------------------------------------------------

  /**
   * A propagator call after `newly` was assigned (None for the initial call):
   * `NoPropagation` never prunes and is a no-op without a variable;
   * `ForwardCheck` ignores the argument.
   */
  function Propagate(P: Setup, S: seq<Domain>, newly: Option<nat>): (r: Propagation)
    requires AllValid(S) && Fits(P, |S|) && (newly.Some? ==> newly.value < |S|)
    ensures AllValid(r.doms) && LogsExactly(S, r.doms, r.log)
    ensures P.prop == NoPropagation ==> r.log == [] && r.doms == S
  {
    match P.prop
    case NoPropagation =>
      if newly.None? then Propagation(NoDwo, [], S)
      else Propagation(NoPropagationSpec(P.byVar[newly.value], S), [], S)
    case ForwardCheck => ForwardCheckAllLogs(P.cons, S); ForwardCheckAll(P.cons, S)
  }

  // ---------------------------------------------------------------------------
  // The propagators run over the CSP object
  // ---------------------------------------------------------------------------

  /** The setup a CSP object presents to propagator `p`. */
  function SetupOf(p: Propagator, csp: CSP): Setup
    reads csp
  {
    Setup(p, csp.cons, csp.byVar)
  }

  /** `NoPropagation.__call__`: a read-only loop over the variable's constraints with an early return. */
  method NoPropagationCall(csp: CSP, newly: Option<nat>) returns (wipeout: Wipeout, pruned: seq<Pruned>)
    requires csp.Valid() && AllVarsValid(csp.vars) && (newly.Some? ==> newly.value < |csp.vars|)
    ensures pruned == []
    ensures newly.None? ==> wipeout == NoDwo
    ensures newly.Some? ==> wipeout == NoPropagationSpec(csp.byVar[newly.value], csp.States())
  {
    if newly.None? {
      return NoDwo, [];
    }
    var involving := csp.ConstraintsInvolving(newly.value);
    var cs := involving.value;
    ghost var S := csp.States();
    for i := 0 to |cs|
      invariant NoPropagationSpec(cs, S) == NoPropagationSpec(cs[i..], S)
    {
      assert cs[i..][1..] == cs[i + 1..];
      var ua := Unassigned(cs[i], csp.vars);
      if ua == [] {
        if !CheckFeasible(cs[i], Doms(csp.vars)) {
          return Dwo, [];
        }
      }
    }
    return NoDwo, [];
  }

  /** `ForwardCheck.__call__`: `forward_check` on each constraint in order, extending the log, returning at the first wipeout. */
  method ForwardCheckCall(csp: CSP) returns (wipeout: Wipeout, pruned: seq<Pruned>)
    requires csp.Valid() && AllVarsValid(csp.vars)
    modifies csp.vars
    ensures AllVarsValid(csp.vars)
    ensures Propagation(wipeout, pruned, csp.States()) == ForwardCheckAll(csp.cons, old(csp.States()))
  {
    ghost var S0 := csp.States();
    var cons := csp.Constraints();
    pruned := [];
    for i := 0 to |cons|
      invariant AllVarsValid(csp.vars)
      invariant ForwardCheckAll(cons, S0) == Prepend(pruned, ForwardCheckAll(cons[i..], csp.States()))
    {
      var dw, log := ForwardCheckTurn(csp, cons, i);
      PrependTwice(pruned, log, ForwardCheckAll(cons[i + 1..], csp.States()));
      pruned := pruned + log;
      if dw == Dwo {
        return Dwo, pruned;
      }
    }
    assert cons[|cons|..] == [];
    return NoDwo, pruned;
  }

  /** One turn of the loop of `ForwardCheck.__call__`: `forward_check` on `cons[i]`. */
  method ForwardCheckTurn(csp: CSP, cons: seq<Constraint>, i: nat) returns (wipeout: Wipeout, log: seq<Pruned>)
    requires csp.Valid() && AllVarsValid(csp.vars) && cons == csp.cons && i < |cons|
    modifies csp.vars
    ensures AllVarsValid(csp.vars)
    ensures wipeout == Dwo ==> ForwardCheckAll(cons[i..], old(csp.States())) == Propagation(Dwo, log, csp.States())
    ensures wipeout == NoDwo ==>
      ForwardCheckAll(cons[i..], old(csp.States())) == Prepend(log, ForwardCheckAll(cons[i + 1..], csp.States()))
  {
    ghost var D := csp.States();
    wipeout, log := Checking.ForwardCheck(cons[i], csp.vars);
    ForwardCheckAllStep(cons, i, D);
  }

  /** A propagator call on the CSP object, in the state Propagate describes. */
  method Call(p: Propagator, csp: CSP, newly: Option<nat>) returns (wipeout: Wipeout, pruned: seq<Pruned>)
    requires csp.Valid() && AllVarsValid(csp.vars) && (newly.Some? ==> newly.value < |csp.vars|)
    modifies csp.vars
    ensures AllVarsValid(csp.vars)
    ensures Propagation(wipeout, pruned, csp.States()) == Propagate(SetupOf(p, csp), old(csp.States()), newly)
  {
    match p
    case NoPropagation =>
      wipeout, pruned := NoPropagationCall(csp, newly);
    case ForwardCheck =>
      wipeout, pruned := ForwardCheckCall(csp);
  }
}
