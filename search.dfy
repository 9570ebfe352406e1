/**
 * `BacktrackSearch` of cp_solver/search.py run over the CSP object: the
 * variable and value choices, the undo of a log, the recursion and the
 * search entry point, each proved to leave the variables in the state, and
 * to return the result, that module SearchModel describes.
 */
module Search {
  import opened Wrappers
  import opened Domains
  import opened Variables
  import opened Constraints
  import opened Checking
  import opened Csps
  import opened Propagators
  import opened SearchModel

  /**
   * `get_min_domain_variable`: the index of the unassigned variable of
   * smallest domain, the first on ties; None when every variable is
   * assigned. `minDomain` None stands for the initial infinity.
   */
  method GetMinDomainVariable(csp: CSP) returns (chosen: Option<nat>)
    requires AllVarsValid(csp.vars)
    ensures chosen == MinDomain(csp.States())
  {
    ghost var S := csp.States();
    var vars := csp.Variables();
    var minDomain: Option<nat> := None;
    chosen := None;
    for i := 0 to |vars|
      invariant Scanned(S, i, chosen, minDomain)
    {
      var v := vars[i];
      assert v.State() == S[i];
      ghost var chosen0, minDomain0 := chosen, minDomain;
      if !v.IsAssigned() && (minDomain.None? || v.DomainSize() < minDomain.value) {
        minDomain := Some(v.DomainSize());
        chosen := Some(i);
      }
      ScanStep(S, i, chosen0, minDomain0, chosen, minDomain);
    }
  }

  /** The loop state of `get_min_domain_variable` after the first `i` variables; `minDomain` caches the chosen size. */
  ghost predicate Scanned(S: seq<Domain>, i: nat, chosen: Option<nat>, minDomain: Option<nat>) {
    i <= |S| && chosen == MinDomainUpTo(S, i) && (minDomain.None? <==> chosen.None?) &&
    (chosen.Some? ==> chosen.value < |S| && minDomain.value == S[chosen.value].Size())
  }

  /** One turn of that loop keeps its state in step with MinDomainUpTo. */
  lemma ScanStep(S: seq<Domain>, i: nat, chosen: Option<nat>, minDomain: Option<nat>, chosen': Option<nat>, minDomain': Option<nat>)
    requires i < |S| && Scanned(S, i, chosen, minDomain)
    requires if !S[i].IsAssigned() && (minDomain.None? || S[i].Size() < minDomain.value)
      then chosen' == Some(i) && minDomain' == Some(S[i].Size())
      else chosen' == chosen && minDomain' == minDomain
    ensures Scanned(S, i + 1, chosen', minDomain')
  {
    MinDomainStep(S, i, chosen);
  }

  /** `get_value_in_domain_order`: an iterator over the variable's visible values, in domain order. */
  method GetValueInDomainOrder(csp: CSP, i: nat) returns (it: DomainIterator)
    requires AllVarsValid(csp.vars) && i < |csp.vars|
    ensures fresh(it) && it.Valid() && it.Remaining() == csp.States()[i].Iteration()
  {
    var vars := csp.Variables();
    it := vars[i].Iter();
  }

  class BacktrackSearch {
    const csp: CSP
    const prop: Propagator
    var solution: Option<seq<int>>

    /** The CSP is well formed and every variable's mask matches its values. */
    ghost predicate Valid()
      reads this, csp, csp.vars
    {
      csp.Valid() && AllVarsValid(csp.vars)
    }

    /** The setup the propagator sees. */
    function Setup(): Setup
      reads csp
    {
      SetupOf(prop, csp)
    }

    /** `BacktrackSearch(csp, prop)`, with the default variable and value choices. */
    constructor (csp: CSP, prop: Propagator)
      ensures this.csp == csp && this.prop == prop && solution == None
    {
      this.csp := csp;
      this.prop := prop;
      solution := None;
    }

    /** `_restore_all_domains`: unassign every assigned variable and restore every domain. */
    method RestoreAllDomains()
      requires Valid()
      modifies csp.vars
      ensures Valid() && csp.States() == RestoreAll(old(csp.States()))
    {
      ghost var S := csp.States();
      var vars := csp.Variables();
      for i := 0 to |vars|
        invariant AllVarsValid(vars)
        invariant forall k :: 0 <= k < i ==> vars[k].State() == S[k].Unassign().Restored()
        invariant forall k :: i <= k < |vars| ==> vars[k].State() == S[k]
      {
        var v := vars[i];
        if v.IsAssigned() {
          v.Unassign();
        }
        v.RestoreDomain();
      }
    }

    /**
     * `_restore_pruning`: `prune(i, unprune=True)` for each logged `(x, i)`,
     * looking `i` up as a value. `ok` is false where that raises ValueError.
     */
    method RestorePruning(log: seq<Pruned>) returns (ok: bool)
      requires Valid() && forall k :: 0 <= k < |log| ==> log[k].0 < |csp.vars|
      modifies csp.vars
      ensures Valid() && (ok, csp.States()) == UndoByValue(old(csp.States()), log)
    {
      ghost var S0 := csp.States();
      for i := 0 to |log|
        invariant Valid()
        invariant UndoByValue(S0, log) == UndoByValue(csp.States(), log[i..])
      {
        assert log[i..][1..] == log[i + 1..];
        var found := Unprune(log[i].0, log[i].1);
        if !found {
          return false;
        }
      }
      assert log[|log|..] == [];
      return true;
    }

    /** `prune(j, unprune=True)` on variable `x`; false where the lookup of `j` as a value raises. */
    method Unprune(x: nat, j: int) returns (found: bool)
      requires Valid() && x < |csp.vars|
      modifies csp.vars
      ensures Valid() && found == old(csp.States())[x].PruneValue(j, true).Some?
      ensures csp.States() == if found then old(csp.States())[x := old(csp.States())[x].PruneValue(j, true).value] else old(csp.States())
    {
      ghost var S := csp.States();
      var vars := csp.Variables();
      found := vars[x].Prune(j, true);
      if found {
        assert csp.States() == S[x := S[x].PruneValue(j, true).value];
      } else {
        assert csp.States() == S;
      }
    }

    /** Records `[v.assigned_value() for v in variables]`, with every variable assigned, as the solution. */
    method RecordSolution()
      requires forall k :: 0 <= k < |csp.vars| ==> csp.vars[k].IsAssigned()
      modifies this
      ensures solution == Some(Assigned(csp.States()))
    {
      ghost var A := Assigned(csp.States());
      var vars := csp.Variables();
      var vals := [];
      for k := 0 to |vars|
        invariant vals == A[..k]
      {
        vals := vals + [vars[k].AssignedValue().value];
      }
      assert vals == A;
      solution := Some(vals);
    }

    /**
     * `_recurse`: choose a variable; with none left record the solution and
     * report no wipeout. Otherwise try its values in domain order until one
     * pass of the loop ends the call; running out of values is a wipeout.
     * `raised` stands for a ValueError escaping an undo. The variables end
     * as the function Recurse says, and the solution is recorded exactly
     * when the result is no wipeout.
     */
    method Recurse() returns (wipeout: Wipeout, raised: bool, ghost o: Outcome)
      requires Valid()
      modifies this, csp.vars
      ensures Valid() && o == SearchModel.Recurse(Setup(), old(csp.States()))
      ensures wipeout == o.wipeout && raised == o.raised && csp.States() == o.doms
      ensures solution == if o.solution.Some? then o.solution else old(solution)
      decreases UnassignedCount(csp.States()), 4
    {
      var x := GetMinDomainVariable(csp);
      if x.None? {
        o := Solved();
        return NoDwo, false, o;
      }
      wipeout, raised, o := Branch(x.value);
    }

    /** `_recurse` with every variable assigned: the assigned values become the solution. */
    method Solved() returns (ghost o: Outcome)
      requires Valid() && MinDomain(csp.States()).None?
      modifies this
      ensures Valid() && o == SearchModel.Recurse(Setup(), csp.States())
      ensures o.wipeout == NoDwo && !o.raised && o.doms == csp.States() && solution == o.solution
    {
      RecordSolution();
      RecurseUnfold(Setup(), csp.States());
      o := SearchModel.Recurse(Setup(), csp.States());
    }

    /**
     * The branching step of `_recurse` on variable `i`: its values in domain
     * order, each tried in turn.
     */
    method Branch(i: nat) returns (wipeout: Wipeout, raised: bool, ghost o: Outcome)
      requires Valid() && i < |csp.vars| && !csp.States()[i].IsAssigned() && MinDomain(csp.States()) == Some(i)
      modifies this, csp.vars
      ensures Valid() && o == SearchModel.Recurse(Setup(), old(csp.States()))
      ensures wipeout == o.wipeout && raised == o.raised && csp.States() == o.doms
      ensures solution == if o.solution.Some? then o.solution else old(solution)
      decreases UnassignedCount(csp.States()), 3
    {
      ghost var S0 := csp.States();
      ghost var P := Setup();
      var it := GetValueInDomainOrder(csp, i);
      wipeout, raised, o := TryAll(i, it);
      RecurseUnfold(P, S0);
    }

    /**
     * The loop of `_recurse` over the values `it` yields for variable `i`,
     * stated against the function TryValues.
     */
    method TryAll(i: nat, it: DomainIterator) returns (wipeout: Wipeout, raised: bool, ghost o: Outcome)
      requires Valid() && i < |csp.vars| && !csp.States()[i].IsAssigned() && it.Valid()
      modifies this, csp.vars, it
      ensures Valid() && o == TryValues(Setup(), old(csp.States()), i, old(it.Remaining()))
      ensures wipeout == o.wipeout && raised == o.raised && csp.States() == o.doms
      ensures solution == if o.solution.Some? then o.solution else old(solution)
      decreases UnassignedCount(csp.States()), 2
    {
      ghost var S0 := csp.States();
      ghost var P := Setup();
      o := TryValues(P, S0, i, it.Remaining());
      while true
        invariant Valid() && it.Valid()
        invariant |csp.States()| == |S0| && !csp.States()[i].IsAssigned()
        invariant UnassignedCount(csp.States()) == UnassignedCount(S0)
        invariant o == TryValues(P, csp.States(), i, it.Remaining())
        invariant solution == old(solution)
        decreases |it.Remaining()|
      {
        var stop;
        ghost var o';
        stop, wipeout, raised, o' := NextValue(i, it);
        if stop {
          return;
        }
      }
    }

    /**
     * One turn of the loop of `_recurse`: take the next value from `it`; with
     * none left the loop ends in a wipeout, otherwise the value is tried.
     */
    method NextValue(i: nat, it: DomainIterator) returns (stop: bool, wipeout: Wipeout, raised: bool, ghost o: Outcome)
      requires Valid() && i < |csp.vars| && !csp.States()[i].IsAssigned() && it.Valid()
      modifies this, csp.vars, it
      ensures Valid() && it.Valid() && |csp.States()| == |old(csp.States())|
      ensures o == TryValues(Setup(), old(csp.States()), i, old(it.Remaining()))
      ensures stop ==> wipeout == o.wipeout && raised == o.raised && csp.States() == o.doms
      ensures stop ==> solution == if o.solution.Some? then o.solution else old(solution)
      ensures !stop ==> !csp.States()[i].IsAssigned() && solution == old(solution)
      ensures !stop ==> UnassignedCount(csp.States()) == UnassignedCount(old(csp.States()))
      ensures !stop ==> o == TryValues(Setup(), csp.States(), i, it.Remaining())
      ensures !stop ==> |it.Remaining()| < |old(it.Remaining())|
      decreases UnassignedCount(csp.States()), 1
    {
      ghost var vals := it.Remaining();
      var val := it.Next();
      if val.None? {
        return true, Dwo, false, TryValues(Setup(), csp.States(), i, vals);
      }
      assert vals == [val.value] + it.Remaining();
      stop, wipeout, raised, o := TryValue(i, val.value, it.Remaining());
    }

    /**
     * One pass of the loop of `_recurse`: assign `v` to variable `i` and
     * propagate; without wipeout return the deeper call's result (`stop`);
     * with one, undo the log (`stop` where that raises) and unassign. The
     * effect is stated against the loop over `v` followed by `rest`.
     */
    method TryValue(i: nat, v: int, ghost rest: seq<int>) returns (stop: bool, wipeout: Wipeout, raised: bool, ghost o: Outcome)
      requires Valid() && i < |csp.vars| && !csp.States()[i].IsAssigned()
      modifies this, csp.vars
      ensures Valid() && |csp.States()| == |old(csp.States())|
      ensures o == TryValues(Setup(), old(csp.States()), i, [v] + rest)
      ensures stop ==> wipeout == o.wipeout && raised == o.raised && csp.States() == o.doms
      ensures stop ==> solution == if o.solution.Some? then o.solution else old(solution)
      ensures !stop ==> !csp.States()[i].IsAssigned() && solution == old(solution)
      ensures !stop ==> UnassignedCount(csp.States()) == UnassignedCount(old(csp.States()))
      ensures !stop ==> o == TryValues(Setup(), csp.States(), i, rest)
      decreases UnassignedCount(csp.States()), 0
    {
      ghost var S := csp.States();
      ghost var P := Setup();
      var dw, log := AssignAndPropagate(i, v);
      assert Setup() == P;
      if dw == NoDwo {
        PassSucceeds(P, S, i, v, rest);
        stop := true;
        wipeout, raised, o := Descend(S, i, v, rest);
      } else {
        var ok := Backtrack(S, i, v, rest, log);
        stop, wipeout, raised, o := !ok, Dwo, !ok, TryValues(P, S, i, [v] + rest);
      }
    }

    /**
     * The end of a pass whose propagation left no domain empty: the deeper
     * call, whose result ends the loop.
     */
    method Descend(ghost S: seq<Domain>, i: nat, ghost v: int, ghost rest: seq<int>) returns (wipeout: Wipeout, raised: bool, ghost o: Outcome)
      requires Valid() && |S| == |csp.vars| && i < |S| && AllValid(S) && !S[i].IsAssigned()
      requires TryValues(Setup(), S, i, [v] + rest) == SearchModel.Recurse(Setup(), csp.States())
      modifies this, csp.vars
      ensures Valid() && o == TryValues(Setup(), S, i, [v] + rest)
      ensures wipeout == o.wipeout && raised == o.raised && csp.States() == o.doms
      ensures solution == if o.solution.Some? then o.solution else old(solution)
      decreases UnassignedCount(csp.States()), 5
    {
      wipeout, raised, o := Recurse();
    }

    /**
     * The end of a pass whose propagation wiped out: undo the log and
     * unassign. Where that succeeds, what is left of the loop runs from the
     * new state; where it raises, the loop ends there.
     */
    method Backtrack(ghost S: seq<Domain>, i: nat, ghost v: int, ghost rest: seq<int>, log: seq<Pruned>) returns (ok: bool)
      requires Valid() && |S| == |csp.vars| && i < |S| && AllValid(S) && !S[i].IsAssigned()
      requires Attempt(Setup(), S, i, v).wipeout == Dwo
      requires csp.States() == Attempt(Setup(), S, i, v).doms && log == Attempt(Setup(), S, i, v).log
      modifies csp.vars
      ensures Valid() && |csp.States()| == |S|
      ensures ok ==> !csp.States()[i].IsAssigned() && UnassignedCount(csp.States()) == UnassignedCount(S)
      ensures ok ==> TryValues(Setup(), S, i, [v] + rest) == TryValues(Setup(), csp.States(), i, rest)
      ensures !ok ==> TryValues(Setup(), S, i, [v] + rest) == Outcome(Dwo, csp.States(), None, true)
    {
      ghost var P := Setup();
      ok := RetractValue(i, log);
      assert Setup() == P;
      PassFails(P, S, i, v, rest, ok, csp.States());
    }

    /** The first steps of a pass: `var.assign(val)` and a propagator call naming the variable. */
    method AssignAndPropagate(i: nat, v: int) returns (wipeout: Wipeout, log: seq<Pruned>)
      requires Valid() && i < |csp.vars| && !csp.States()[i].IsAssigned()
      modifies csp.vars
      ensures Valid()
      ensures Propagation(wipeout, log, csp.States()) == Attempt(Setup(), old(csp.States()), i, v)
    {
      ghost var S := csp.States();
      var vars := csp.Variables();
      vars[i].Assign(v);
      assert csp.States() == S[i := S[i].Assign(v)];
      wipeout, log := Call(prop, csp, Some(i));
    }

    /** The steps after a wipeout: `_restore_pruning(prunings)`, then `var.unassign()` unless that raised. */
    method RetractValue(i: nat, log: seq<Pruned>) returns (ok: bool)
      requires Valid() && i < |csp.vars| && forall k :: 0 <= k < |log| ==> log[k].0 < |csp.vars|
      modifies csp.vars
      ensures Valid() && (ok, csp.States()) == Retract(old(csp.States()), i, log)
    {
      ok := RestorePruning(log);
      if ok {
        ghost var S := csp.States();
        var vars := csp.Variables();
        vars[i].Unassign();
        assert csp.States() == S[i := S[i].Unassign()];
      }
    }

    /**
     * `search`: restore everything, propagate once; on a wipeout return None
     * at once. Otherwise recurse, undo the initial log, and return the
     * recorded solution unless the recursion reported a wipeout.
     */
    method Search() returns (r: SearchResult)
      requires Valid()
      modifies this, csp.vars
      ensures Valid()
      ensures (r, csp.States()) == SearchModel.Search(Setup(), old(csp.States()))
    {
      ghost var S0 := csp.States();
      RestoreAllDomains();
      var dw, prunings := Call(prop, csp, None);
      ghost var init := InitialPropagation(Setup(), S0);
      assert Propagation(dw, prunings, csp.States()) == init;
      if dw == Dwo {
        return NoSolution;
      }
      r := Finish(prunings);
    }

    /**
     * The rest of `search` once the initial propagation logged `log` without
     * a wipeout: recurse, undo `log`, and return the recorded solution unless
     * the recursion reported a wipeout. A ValueError escaping the recursion
     * or the undo ends the call.
     */
    method Finish(log: seq<Pruned>) returns (r: SearchResult)
      requires Valid() && forall k :: 0 <= k < |log| ==> log[k].0 < |csp.vars|
      modifies this, csp.vars
      ensures Valid()
      ensures (r, csp.States()) == SearchModel.Finish(Setup(), old(csp.States()), log)
    {
      var dw, raised, o := Recurse();
      if raised {
        return ValueError;
      }
      var ok := RestorePruning(log);
      if !ok {
        return ValueError;
      }
      if dw == Dwo {
        return NoSolution;
      }
      return Solution(solution.value);
    }
  }
}
