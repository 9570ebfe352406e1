/**
 * The stateful side of `Constraint` in cp_solver/base.py: `unassigned` and
 * `forward_check` run over the variable objects, the latter pruning the one
 * unassigned variable in place. Each is proved equal to its value-level
 * counterpart in module Constraints.
 */
module Checking {
  import opened Wrappers
  import opened Domains
  import opened Variables
  import opened Constraints

  /** Every variable object keeps its mask as long as its values. */
  ghost predicate AllVarsValid(vars: seq<Variable>)
    reads vars
  {
    forall k :: 0 <= k < |vars| ==> vars[k].Valid()
  }

  /** `unassigned`: the scope's unassigned variables, in scope order. */
  method Unassigned(c: Constraint, vars: seq<Variable>) returns (ua: seq<nat>)
    requires InScope(c, |vars|)
    ensures ua == UnassignedOf(c, Doms(vars))
  {
    ghost var S := Doms(vars);
    var scope := c.Scope();
    ua := [];
    for k := 0 to |scope|
      invariant ua == FilterUnassigned(scope[..k], S)
    {
      assert scope[..k + 1][..k] == scope[..k];
      if !vars[scope[k]].IsAssigned() {
        ua := ua + [scope[k]];
      }
    }
    assert scope[..|scope|] == scope;
  }

  /**
   * `forward_check`: when exactly one scope variable is unassigned, enumerate
   * its visible values, hide in place each one that fails the test with the
   * other slots at their assigned values, and log it. The variables end in
   * the state ForwardCheckSpec describes, and the results are its wipeout
   * flag and log.
   */
  method ForwardCheck(c: Constraint, vars: seq<Variable>) returns (wipeout: Wipeout, pruned: seq<Pruned>)
    requires DistinctVars(vars) && AllVarsValid(vars) && InScope(c, |vars|)
    modifies vars
    ensures AllVarsValid(vars)
    ensures Propagation(wipeout, pruned, Doms(vars)) == ForwardCheckSpec(c, old(Doms(vars)))
  {
    ghost var S := Doms(vars);
    var ua := Unassigned(c, vars);
    if |ua| != 1 {
      return NoDwo, [];
    }
    wipeout, pruned := ForwardCheckOne(c, vars, ua[0]);
  }

  /** `forward_check` once the constraint has exactly one unassigned variable, `vars[x]`. */
  method ForwardCheckOne(c: Constraint, vars: seq<Variable>, x: nat) returns (wipeout: Wipeout, pruned: seq<Pruned>)
    requires DistinctVars(vars) && AllVarsValid(vars) && InScope(c, |vars|)
    requires UnassignedOf(c, Doms(vars)) == [x]
    modifies vars
    ensures AllVarsValid(vars)
    ensures Propagation(wipeout, pruned, Doms(vars)) == ForwardCheckSpec(c, old(Doms(vars)))
  {
    ghost var S := Doms(vars);
    var u := vars[x];
    var slots := AssignedSlots(c, vars);
    OneUnassignedSlot(c, S);
    var uv := FirstNone(slots).value;
    ghost var E := EnumFrom(S[x].values, S[x].visible, 0);
    ghost var T := S[x := S[x].(visible := SweepMask(c, slots, uv, S[x].visible, E))];
    SweepIsSpec(c, S, x, slots, uv, E, T);
    pruned := SweepVariable(c, slots, uv, x, u);
    wipeout := if u.DomainSize() == 0 then Dwo else NoDwo;
    OnlyOneChanged(vars, x, S);
  }

  /** When every entry but `x` has the state `S` records, the states are `S` with entry `x` replaced. */
  lemma OnlyOneChanged(vars: seq<Variable>, x: nat, S: seq<Domain>)
    requires x < |vars| == |S|
    requires forall k :: 0 <= k < |vars| && k != x ==> vars[k].State() == S[k]
    ensures Doms(vars) == S[x := vars[x].State()]
  {
  }

  /** The state and log the sweep of `vars[x]` leaves are those ForwardCheckSpec gives. */
  lemma SweepIsSpec(c: Constraint, S: seq<Domain>, x: nat, slots: seq<Option<int>>, uv: nat,
                    E: seq<(nat, int)>, T: seq<Domain>)
    requires AllValid(S) && InScope(c, |S|) && UnassignedOf(c, S) == [x] && x < |S|
    requires slots == Slots(c, S) && FirstNone(slots) == Some(uv)
    requires E == EnumFrom(S[x].values, S[x].visible, 0)
    requires T == S[x := S[x].(visible := SweepMask(c, slots, uv, S[x].visible, E))]
    ensures AllValid(T)
    ensures ForwardCheckSpec(c, S) == Propagation(if T[x].Size() == 0 then Dwo else NoDwo, SweepLog(c, slots, uv, x, E), T)
  {
    ForwardCheckValid(c, S);
  }

  /** The `vals` list of `forward_check`: each scope variable's assigned value, or none. */
  method AssignedSlots(c: Constraint, vars: seq<Variable>) returns (slots: seq<Option<int>>)
    requires InScope(c, |vars|)
    ensures slots == Slots(c, Doms(vars))
  {
    slots := seq(|c.Scope()|, k requires 0 <= k < |c.Scope()| reads vars => vars[c.Scope()[k]].AssignedValue());
    assert |slots| == |Slots(c, Doms(vars))|;
  }

  /**
   * The loop of `forward_check` over `u.enumerate()`: each enumerated value
   * failing the test, with slot `uv` holding it, is hidden at its position
   * and logged as `(x, position)`.
   */
  method SweepVariable(c: Constraint, slots: seq<Option<int>>, uv: nat, x: nat, u: Variable) returns (pruned: seq<Pruned>)
    requires u.Valid() && !u.IsAssigned() && |slots| == |c.Scope()|
    modifies u
    ensures u.Valid() && u.values == old(u.values) && u.assignment == old(u.assignment)
    ensures u.visible == SweepMask(c, slots, uv, old(u.visible), EnumFrom(old(u.values), old(u.visible), 0))
    ensures pruned == SweepLog(c, slots, uv, x, EnumFrom(old(u.values), old(u.visible), 0))
  {
    var en := u.Enumerate();
    var e := en.value;
    ghost var E := e.Remaining();
    ghost var m0 := u.visible;
    assert E == EnumFrom(u.values, m0, 0);
    ghost var done: seq<(nat, int)> := [];
    pruned := [];
    assert forall l :: 0 <= l < |E| ==> E[l].0 < |m0|;
    while true
      invariant e.Valid() && fresh(e)
      invariant done + e.Remaining() == E
      invariant forall l :: 0 <= l < |done| ==> done[l].0 < |m0|
      invariant u.Valid() && u.values == old(u.values) && u.assignment == old(u.assignment)
      invariant u.visible == SweepMask(c, slots, uv, m0, done)
      invariant pruned == SweepLog(c, slots, uv, x, done)
      decreases |e.Remaining()|
    {
      var more, entry, p := SweepTurn(c, slots, uv, x, u, e, m0, E, done);
      if !more {
        break;
      }
      SweepSnoc(c, slots, uv, x, m0, done, p);
      pruned := pruned + entry;
      done := done + [p];
    }
  }

  /** One turn of that loop: the next enumerated pair, if any, checked. */
  method SweepTurn(c: Constraint, slots: seq<Option<int>>, uv: nat, x: nat, u: Variable, e: DomainEnumerator,
                   ghost m0: seq<bool>, ghost E: seq<(nat, int)>, ghost done: seq<(nat, int)>)
    returns (more: bool, entry: seq<Pruned>, ghost p: (nat, int))
    requires e.Valid() && u.Valid() && |u.visible| == |m0| && |slots| == |c.Scope()|
    requires done + e.Remaining() == E && forall l :: 0 <= l < |E| ==> E[l].0 < |m0|
    modifies u, e
    ensures e.Valid() && u.Valid() && u.values == old(u.values) && u.assignment == old(u.assignment)
    ensures !more ==> done == E && u.visible == old(u.visible)
    ensures more ==> done + [p] + e.Remaining() == E && p.0 < |m0| && |e.Remaining()| < |old(e.Remaining())|
    ensures more && c.Test(Fill(slots, uv, p.1)) ==> u.visible == old(u.visible) && entry == []
    ensures more && !c.Test(Fill(slots, uv, p.1)) ==> u.visible == old(u.visible)[p.0 := false] && entry == [(x, p.0)]
  {
    ghost var rest := e.Remaining();
    var next := e.Next();
    if next.None? {
      return false, [], (0, 0);
    }
    var (i, val) := next.value;
    p := (i, val);
    assert E[|done|] == p by {
      assert rest[0] == p;
    }
    assert done + [p] + e.Remaining() == E by {
      assert rest == [p] + e.Remaining();
    }
    more := true;
    entry := CheckValue(c, slots, uv, x, u, i, val);
  }

  /**
   * One turn of that loop: the value `val` at position `i` of `u` is hidden
   * and logged as `(x, i)` exactly when it fails the test in slot `uv`.
   */
  method CheckValue(c: Constraint, slots: seq<Option<int>>, uv: nat, x: nat, u: Variable, i: nat, val: int)
    returns (entry: seq<Pruned>)
    requires u.Valid() && i < |u.visible| && |slots| == |c.Scope()|
    modifies u
    ensures u.Valid() && u.values == old(u.values) && u.assignment == old(u.assignment)
    ensures c.Test(Fill(slots, uv, val)) ==> u.visible == old(u.visible) && entry == []
    ensures !c.Test(Fill(slots, uv, val)) ==> u.visible == old(u.visible)[i := false] && entry == [(x, i)]
  {
    entry := [];
    if !c.Test(Fill(slots, uv, val)) {
      u.PruneAtIndex(i, false);
      entry := [(x, i)];
    }
  }
}
